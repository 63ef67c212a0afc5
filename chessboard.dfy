/**
 * The Reversi board: two stone planes of 8x8 cells, the flanking rule that
 * decides whether a stone may be placed, the board a placement produces, and
 * the end-of-game verdict.
 */
module Chessboard {

  /** Side length of the board (CHESSBOARD_SIZE). */
  const N: int := 8
  /** Number of cells of one plane. */
  const CELLS: int := 64

  /** The board's `data_`: plane `who` occupies indices who*64 .. who*64+63. */
  type Board = s: seq<bool> | |s| == 2 * CELLS witness seq(128, _ => false)

  /** A player id, 0 or 1 (`who`, `c`). */
  type Player = p: int | 0 <= p <= 1

  /** The opponent, `who ^ 1`. */
  function Other(p: Player): (q: Player)
    ensures q != p
  {
    1 - p
  }

  predicate InBounds(x: int, y: int) {
    0 <= x < N && 0 <= y < N
  }

  /** Position of (who, x, y) in the board's data. */
  function Index(who: Player, x: int, y: int): (k: int)
    requires InBounds(x, y)
    ensures who * CELLS <= k < who * CELLS + CELLS
  {
    who * CELLS + x * N + y
  }

  /** `At(who, x, y)`: does player `who` have a stone on (x, y)? */
  function At(b: Board, who: Player, x: int, y: int): bool
    requires InBounds(x, y)
  {
    b[Index(who, x, y)]
  }


  /** Four unit directions, no two of them opposite (DIRS). */
  const DIRS: seq<(int, int)> := [(0, 1), (1, 0), (1, 1), (1, -1)]

  /**
   * The eight rays scanned by Place, in the source's order: ray t walks
   * direction DIRS[t / 2] multiplied by -1 (t even) or by +1 (t odd).
   */
  function Mul(t: int): int {
    if t % 2 == 0 then -1 else 1
  }

  /**
   * The cell at distance k from (x, y) along ray t, that is
   * (x, y) + k * Mul(t) * DIRS[t / 2] (see RayFollowsDirs).
   */
  function Ray(x: int, y: int, t: int, k: int): (int, int)
    requires 0 <= t < 8
  {
    var dx := if t < 2 then 0 else if t % 2 == 0 then -k else k;
    var dy := if t == 2 || t == 3 then 0 else if t == 0 || t == 4 || t == 7 then -k else k;
    (x + dx, y + dy)
  }

  /** Ray walks exactly the directions DIRS, each with both signs. */
  lemma RayFollowsDirs(x: int, y: int, t: int, k: int)
    requires 0 <= t < 8
    ensures Ray(x, y, t, k) == (x + DIRS[t / 2].0 * Mul(t) * k, y + DIRS[t / 2].1 * Mul(t) * k)
  {
  }

  /** Every ray leaves the board within eight steps. */
  lemma RayLeaves(x: int, y: int, t: int)
    requires InBounds(x, y) && 0 <= t < 8
    ensures !InBounds(Ray(x, y, t, 8).0, Ray(x, y, t, 8).1)
  {
  }

  /** A ray never comes back to its origin. */
  lemma RayMoves(x: int, y: int, t: int, k: int)
    requires 0 <= t < 8 && k >= 1
    ensures Ray(x, y, t, k) != (x, y)
  {
  }

  /** The scan keeps going through a cell holding only an opponent stone. */
  predicate Continues(b: Board, c: Player, p: (int, int)) {
    InBounds(p.0, p.1) && At(b, Other(c), p.0, p.1) && !At(b, c, p.0, p.1)
  }

  // ---------------------------------------------------------------------------
  // The flanking rule, stated declaratively.

  /**
   * Ray t from (x, y) holds a run of k - 1 >= 1 opponent stones closed by
   * an own stone at distance k.
   */
  ghost predicate RunFrom(b: Board, c: Player, x: int, y: int, t: int, k: int)
    requires 0 <= t < 8
  {
    && 2 <= k <= 8
    && InBounds(Ray(x, y, t, k).0, Ray(x, y, t, k).1)
    && At(b, c, Ray(x, y, t, k).0, Ray(x, y, t, k).1)
    && forall j :: 1 <= j < k ==> Continues(b, c, Ray(x, y, t, j))
  }

  ghost predicate Flanks(b: Board, c: Player, x: int, y: int, t: int)
    requires 0 <= t < 8
  {
    exists k :: RunFrom(b, c, x, y, t, k)
  }

  /** A stone of `c` may be placed on (x, y): the cell is empty and some ray flanks. */
  ghost predicate Legal(b: Board, c: Player, x: int, y: int) {
    && InBounds(x, y)
    && !At(b, 0, x, y) && !At(b, 1, x, y)
    && exists t :: 0 <= t < 8 && Flanks(b, c, x, y, t)
  }

  /** Player `c` has at least one legal placement. */
  ghost predicate HasMove(b: Board, c: Player) {
    exists x, y :: Legal(b, c, x, y)
  }

  /** Cell (x', y') comes before (x, y) in the row-major scan order. */
  predicate Before(x': int, y': int, x: int, y: int) {
    x' < x || (x' == x && y' < y)
  }

  /** A scan position: the next cell to look at, or (N, 0) once all are done. */
  predicate ScanPos(x: int, y: int) {
    (0 <= x < N && 0 <= y <= N) || (x == N && y == 0)
  }

  // ---------------------------------------------------------------------------
  // The flanking rule as Place computes it.

  /** The value of the scan variable `i` when the scan of ray t stops. */
  function RunEnd(b: Board, c: Player, x: int, y: int, t: int, i: int): int
    requires 0 <= t < 8 && 1 <= i <= 9
    decreases 9 - i, b
  {
    if i <= 8 && Continues(b, c, Ray(x, y, t, i)) then RunEnd(b, c, x, y, t, i + 1) else i
  }

  function ScanStop(b: Board, c: Player, x: int, y: int, t: int): int
    requires 0 <= t < 8
  {
    RunEnd(b, c, x, y, t, 1)
  }

  lemma {:induction false} RunEndProps(b: Board, c: Player, x: int, y: int, t: int, i: int)
    requires 0 <= t < 8 && 1 <= i <= 9
    ensures i <= RunEnd(b, c, x, y, t, i) <= 9
    ensures forall j :: i <= j < RunEnd(b, c, x, y, t, i) ==> Continues(b, c, Ray(x, y, t, j))
    ensures RunEnd(b, c, x, y, t, i) <= 8 ==> !Continues(b, c, Ray(x, y, t, RunEnd(b, c, x, y, t, i)))
    decreases 9 - i
  {
    if i <= 8 && Continues(b, c, Ray(x, y, t, i)) {
      RunEndProps(b, c, x, y, t, i + 1);
    }
  }

  /**
   * The scan stops at a distance between 1 and 8, and every cell it passed
   * holds only an opponent stone.
   */
  lemma ScanStopProps(b: Board, c: Player, x: int, y: int, t: int)
    requires InBounds(x, y) && 0 <= t < 8
    ensures 1 <= ScanStop(b, c, x, y, t) <= 8
    ensures forall j :: 1 <= j < ScanStop(b, c, x, y, t) ==> Continues(b, c, Ray(x, y, t, j))
    ensures !Continues(b, c, Ray(x, y, t, ScanStop(b, c, x, y, t)))
  {
    RunEndProps(b, c, x, y, t, 1);
    RayLeaves(x, y, t);
  }

  /** The test Place applies once the scan of ray t has stopped. */
  predicate Closes(b: Board, c: Player, x: int, y: int, t: int)
    requires 0 <= t < 8
  {
    var e := ScanStop(b, c, x, y, t);
    var p := Ray(x, y, t, e);
    InBounds(p.0, p.1) && e >= 2 && At(b, c, p.0, p.1)
  }

  /** The scan Place runs agrees with the flanking rule, ray by ray. */
  lemma ClosesIffFlanks(b: Board, c: Player, x: int, y: int, t: int)
    requires InBounds(x, y) && 0 <= t < 8
    ensures Closes(b, c, x, y, t) <==> Flanks(b, c, x, y, t)
  {
    var e := ScanStop(b, c, x, y, t);
    ScanStopProps(b, c, x, y, t);
    if Closes(b, c, x, y, t) {
      assert RunFrom(b, c, x, y, t, e);
    }
    if Flanks(b, c, x, y, t) {
      var k :| RunFrom(b, c, x, y, t, k);
      if e < k {
        assert false;
      } else if k < e {
        assert false;
      }
    }
  }

  // ---------------------------------------------------------------------------
  // The board a placement produces.

  /** The cell (p.0, p.1) becomes `c`'s and is cleared from `c ^ 1`. */
  function SetStone(cur: Board, c: Player, p: (int, int)): Board
    requires InBounds(p.0, p.1)
  {
    cur[Index(c, p.0, p.1) := true][Index(Other(c), p.0, p.1) := false]
  }

  /** Turns the cells at distances j .. e-1 of ray t into `c`'s. */
  function FlipRun(cur: Board, c: Player, x: int, y: int, t: int, j: int, e: int): Board
    requires 0 <= t < 8
    requires forall k :: j <= k < e ==> InBounds(Ray(x, y, t, k).0, Ray(x, y, t, k).1)
    decreases e - j
  {
    if j >= e then cur else FlipRun(SetStone(cur, c, Ray(x, y, t, j)), c, x, y, t, j + 1, e)
  }

  /** The output board once the target is set and rays 0 .. t-1 are applied. */
  function FlipLines(b: Board, c: Player, x: int, y: int, t: int): Board
    requires InBounds(x, y) && 0 <= t <= 8
    decreases t, b
  {
    if t == 0 then b[Index(c, x, y) := true]
    else
      var prev := FlipLines(b, c, x, y, t - 1);
      if Closes(b, c, x, y, t - 1) then
        ScanStopProps(b, c, x, y, t - 1);
        FlipRun(prev, c, x, y, t - 1, 1, ScanStop(b, c, x, y, t - 1))
      else prev
  }

  /** The board Place writes to its output buffer. */
  function Applied(b: Board, c: Player, x: int, y: int): Board
    requires InBounds(x, y)
  {
    FlipLines(b, c, x, y, 8)
  }

  // ---------------------------------------------------------------------------
  // Place: the legality probe and, given an output buffer, the apply phase.

  /**
   * One ray of Place's scan: walks ray t while the cells hold only opponent
   * stones, and reports where it stopped and whether an own stone closed it.
   */
  method ScanLine(b: Board, c: Player, x: int, y: int, t: int) returns (i: int, closes: bool)
    requires InBounds(x, y) && 0 <= t < 8
    ensures i == ScanStop(b, c, x, y, t)
    ensures closes == Closes(b, c, x, y, t)
  {
    var nx, ny := x, y;
    i := 1;
    while i <= 8
      invariant 1 <= i <= 9
      invariant RunEnd(b, c, x, y, t, i) == ScanStop(b, c, x, y, t)
    {
      var p := Ray(x, y, t, i);
      nx, ny := p.0, p.1;
      if !InBounds(nx, ny) {
        break;
      }
      if !At(b, Other(c), nx, ny) || At(b, c, nx, ny) {
        break;
      }
      i := i + 1;
    }
    ScanStopProps(b, c, x, y, t);
    closes := InBounds(nx, ny) && i >= 2 && At(b, c, nx, ny);
  }

  /** The probe half of Place: the emptiness test and the scan of the eight rays. */
  method Probe(b: Board, c: Player, x: int, y: int) returns (ok: bool)
    requires InBounds(x, y)
    ensures ok == Legal(b, c, x, y)
  {
    if At(b, 0, x, y) || At(b, 1, x, y) {
      return false;
    }
    var t := 0;
    ok := false;
    while t < 8 && !ok
      invariant 0 <= t <= 8
      invariant ok ==> Legal(b, c, x, y)
      invariant !ok ==> forall t' :: 0 <= t' < t ==> !Flanks(b, c, x, y, t')
    {
      var _, closes := ScanLine(b, c, x, y, t);
      ClosesIffFlanks(b, c, x, y, t);
      ok := closes;
      t := t + 1;
    }
  }

  /** The flipping loop of the apply phase: cells 1 .. e-1 of ray t become `c`'s. */
  method FlipRay(c: Player, x: int, y: int, t: int, e: int, out: array<bool>)
    requires 0 <= t < 8 && out.Length == 2 * CELLS
    requires forall k :: 1 <= k < e ==> InBounds(Ray(x, y, t, k).0, Ray(x, y, t, k).1)
    modifies out
    ensures out[..] == FlipRun(old(out[..]), c, x, y, t, 1, e)
  {
    var j := 1;
    while j <= e - 1
      invariant 1 <= j
      invariant j <= e || e < 1
      invariant FlipRun(out[..], c, x, y, t, j, e) == FlipRun(old(out[..]), c, x, y, t, 1, e)
    {
      var p := Ray(x, y, t, j);
      ghost var before: Board := out[..];
      out[Index(c, p.0, p.1)] := true;
      out[Index(Other(c), p.0, p.1)] := false;
      assert out[..] == SetStone(before, c, p);
      j := j + 1;
    }
  }

  /**
   * The apply half of Place: copies the board into `out`, sets the target
   * and flips the cells strictly inside every closed ray.
   */
  method ApplyTo(b: Board, c: Player, x: int, y: int, out: array<bool>)
    requires InBounds(x, y) && out.Length == 2 * CELLS
    modifies out
    ensures out[..] == Applied(b, c, x, y)
  {
    forall k | 0 <= k < out.Length {
      out[k] := b[k];
    }
    out[Index(c, x, y)] := true;
    assert out[..] == FlipLines(b, c, x, y, 0);
    var t := 0;
    while t < 8
      invariant 0 <= t <= 8
      invariant out[..] == FlipLines(b, c, x, y, t)
    {
      var i, closes := ScanLine(b, c, x, y, t);
      if closes {
        ScanStopProps(b, c, x, y, t);
        FlipRay(c, x, y, t, i, out);
      }
      t := t + 1;
    }
  }

  /**
   * `Place(c, x, y, out)`: whether `c` may place a stone on (x, y). With an
   * output buffer (`out != null`) and a legal move, the buffer receives the
   * board after the move; otherwise nothing is written.
   */
  method Place(b: Board, c: Player, x: int, y: int, out: array?<bool>) returns (ok: bool)
    requires InBounds(x, y)
    requires out != null ==> out.Length == 2 * CELLS
    modifies out
    ensures ok == Legal(b, c, x, y)
    ensures out != null && ok ==> out[..] == Applied(b, c, x, y)
    ensures out != null && !ok ==> out[..] == old(out[..])
  {
    ok := Probe(b, c, x, y);
    if ok && out != null {
      ApplyTo(b, c, x, y, out);
    }
  }

  // ---------------------------------------------------------------------------
  // What a move does to each cell.

  /** Cell (px, py) lies strictly inside a closed ray among rays 0 .. n-1 of the move at (x, y). */
  ghost predicate FlippedBy(b: Board, c: Player, x: int, y: int, n: int, px: int, py: int)
    requires InBounds(x, y)
  {
    exists t, k :: 0 <= t < n && t < 8 && Closes(b, c, x, y, t) && 1 <= k < ScanStop(b, c, x, y, t)
                   && Ray(x, y, t, k) == (px, py)
  }

  /** Cell (px, py) is flipped by the move of `c` at (x, y). */
  ghost predicate Flipped(b: Board, c: Player, x: int, y: int, px: int, py: int)
    requires InBounds(x, y)
  {
    FlippedBy(b, c, x, y, 8, px, py)
  }

  /** (px, py) is one of the cells at distances j .. e-1 of ray t. */
  ghost predicate OnRun(x: int, y: int, t: int, j: int, e: int, px: int, py: int)
    requires 0 <= t < 8
  {
    exists k :: j <= k < e && Ray(x, y, t, k) == (px, py)
  }

  lemma OnRunStep(x: int, y: int, t: int, j: int, e: int, px: int, py: int)
    requires 0 <= t < 8 && j < e
    ensures OnRun(x, y, t, j, e, px, py) <==> Ray(x, y, t, j) == (px, py) || OnRun(x, y, t, j + 1, e, px, py)
  {
    if OnRun(x, y, t, j, e, px, py) && Ray(x, y, t, j) != (px, py) {
      var k :| j <= k < e && Ray(x, y, t, k) == (px, py);
      assert j + 1 <= k;
    }
    if Ray(x, y, t, j) == (px, py) {
      assert j <= j < e;
    }
  }

  lemma {:induction false} FlipRunAt(cur: Board, c: Player, x: int, y: int, t: int, j: int, e: int,
                                     p: Player, px: int, py: int)
    requires 0 <= t < 8 && InBounds(px, py)
    requires forall k :: j <= k < e ==> InBounds(Ray(x, y, t, k).0, Ray(x, y, t, k).1)
    ensures FlipRun(cur, c, x, y, t, j, e)[Index(p, px, py)] ==
            if OnRun(x, y, t, j, e, px, py) then p == c else cur[Index(p, px, py)]
    decreases e - j
  {
    if j < e {
      var next := SetStone(cur, c, Ray(x, y, t, j));
      assert next[Index(p, px, py)] == if Ray(x, y, t, j) == (px, py) then p == c else cur[Index(p, px, py)];
      FlipRunAt(next, c, x, y, t, j + 1, e, p, px, py);
      OnRunStep(x, y, t, j, e, px, py);
    }
  }

  /** Ray n-1 on its own: a cell strictly inside it, when it closes. */
  ghost predicate InsideRay(b: Board, c: Player, x: int, y: int, t: int, px: int, py: int)
    requires InBounds(x, y) && 0 <= t < 8
  {
    Closes(b, c, x, y, t) && OnRun(x, y, t, 1, ScanStop(b, c, x, y, t), px, py)
  }

  lemma FlippedByStep(b: Board, c: Player, x: int, y: int, n: int, px: int, py: int)
    requires InBounds(x, y) && 1 <= n <= 8
    ensures FlippedBy(b, c, x, y, n, px, py) <==>
            FlippedBy(b, c, x, y, n - 1, px, py) || InsideRay(b, c, x, y, n - 1, px, py)
  {
    if FlippedBy(b, c, x, y, n, px, py) {
      var t, k :| 0 <= t < n && t < 8 && Closes(b, c, x, y, t) && 1 <= k < ScanStop(b, c, x, y, t)
                  && Ray(x, y, t, k) == (px, py);
      if t == n - 1 {
        assert InsideRay(b, c, x, y, n - 1, px, py);
      }
    }
  }

  lemma {:induction false} FlipLinesAt(b: Board, c: Player, x: int, y: int, n: int, p: Player, px: int, py: int)
    requires InBounds(x, y) && 0 <= n <= 8 && InBounds(px, py)
    ensures FlipLines(b, c, x, y, n)[Index(p, px, py)] ==
            if (px, py) == (x, y) then (p == c || b[Index(p, px, py)])
            else if FlippedBy(b, c, x, y, n, px, py) then p == c
            else b[Index(p, px, py)]
  {
    if n > 0 {
      var t := n - 1;
      FlipLinesAt(b, c, x, y, t, p, px, py);
      FlippedByStep(b, c, x, y, n, px, py);
      if Closes(b, c, x, y, t) {
        ScanStopProps(b, c, x, y, t);
        var e := ScanStop(b, c, x, y, t);
        var prev := FlipLines(b, c, x, y, t);
        assert FlipLines(b, c, x, y, n) == FlipRun(prev, c, x, y, t, 1, e);
        FlipRunAt(prev, c, x, y, t, 1, e, p, px, py);
        if InsideRay(b, c, x, y, t, px, py) {
          var k :| 1 <= k < e && Ray(x, y, t, k) == (px, py);
          RayMoves(x, y, t, k);
        }
      }
    }
  }

  /**
   * The board a move produces, cell by cell: the target gains `c`'s stone,
   * the flipped cells hold exactly `c`'s stone, and every other cell keeps
   * what it had.
   */
  lemma AppliedAt(b: Board, c: Player, x: int, y: int, p: Player, px: int, py: int)
    requires InBounds(x, y) && InBounds(px, py)
    ensures Applied(b, c, x, y)[Index(p, px, py)] ==
            if (px, py) == (x, y) then (p == c || b[Index(p, px, py)])
            else if Flipped(b, c, x, y, px, py) then p == c
            else b[Index(p, px, py)]
  {
    FlipLinesAt(b, c, x, y, 8, p, px, py);
  }

  /** A closed run along ray t ends exactly where the scan of that ray stops. */
  lemma RunFromAtStop(b: Board, c: Player, x: int, y: int, t: int, k: int)
    requires InBounds(x, y) && 0 <= t < 8
    ensures RunFrom(b, c, x, y, t, k) <==> Closes(b, c, x, y, t) && k == ScanStop(b, c, x, y, t)
  {
    var e := ScanStop(b, c, x, y, t);
    ScanStopProps(b, c, x, y, t);
    if RunFrom(b, c, x, y, t, k) {
      if e < k {
        assert false;
      } else if k < e {
        assert false;
      }
    }
  }

  /**
   * The cells a move flips, stated by the flanking rule: exactly the cells
   * strictly between the target and the closing own stone of a run.
   */
  lemma FlippedIffRun(b: Board, c: Player, x: int, y: int, px: int, py: int)
    requires InBounds(x, y)
    ensures Flipped(b, c, x, y, px, py) <==>
      exists t, k, j :: 0 <= t < 8 && RunFrom(b, c, x, y, t, k) && 1 <= j < k && Ray(x, y, t, j) == (px, py)
  {
    if Flipped(b, c, x, y, px, py) {
      var t, j :| 0 <= t < 8 && Closes(b, c, x, y, t) && 1 <= j < ScanStop(b, c, x, y, t)
                  && Ray(x, y, t, j) == (px, py);
      var k := ScanStop(b, c, x, y, t);
      RunFromAtStop(b, c, x, y, t, k);
      assert RunFrom(b, c, x, y, t, k) && 1 <= j < k && Ray(x, y, t, j) == (px, py);
    }
    if exists t, k, j :: 0 <= t < 8 && RunFrom(b, c, x, y, t, k) && 1 <= j < k && Ray(x, y, t, j) == (px, py) {
      var t, k, j :| 0 <= t < 8 && RunFrom(b, c, x, y, t, k) && 1 <= j < k && Ray(x, y, t, j) == (px, py);
      RunFromAtStop(b, c, x, y, t, k);
      assert Closes(b, c, x, y, t) && 1 <= j < ScanStop(b, c, x, y, t) && Ray(x, y, t, j) == (px, py);
    }
  }

  /** A flipped cell held only an opponent stone before the move, and is not the target. */
  lemma FlippedWasOpponent(b: Board, c: Player, x: int, y: int, px: int, py: int)
    requires InBounds(x, y) && Flipped(b, c, x, y, px, py)
    ensures Continues(b, c, (px, py)) && (px, py) != (x, y)
  {
    var t, k :| 0 <= t < 8 && Closes(b, c, x, y, t) && 1 <= k < ScanStop(b, c, x, y, t)
                && Ray(x, y, t, k) == (px, py);
    ScanStopProps(b, c, x, y, t);
    RayMoves(x, y, t, k);
  }

  // ---------------------------------------------------------------------------
  // Stone counts.

  /** Number of `who`'s stones among the first n cells in row-major order. */
  function Count(b: Board, who: Player, n: int): (r: int)
    requires 0 <= n <= CELLS
    ensures 0 <= r <= n
    decreases n, b
  {
    if n == 0 then 0 else Count(b, who, n - 1) + (if b[who * CELLS + n - 1] then 1 else 0)
  }

  /** Stones on the whole board. */
  function Stones(b: Board): (r: int)
    ensures 0 <= r <= 2 * CELLS
  {
    Count(b, 0, CELLS) + Count(b, 1, CELLS)
  }

  /** Number of cells among the first n in row-major order that the move flips. */
  ghost function FlipCount(b: Board, c: Player, x: int, y: int, n: int): (r: int)
    requires InBounds(x, y) && 0 <= n <= CELLS
    ensures 0 <= r <= n
    decreases n, b
  {
    if n == 0 then 0
    else FlipCount(b, c, x, y, n - 1) + (if Flipped(b, c, x, y, (n - 1) / N, (n - 1) % N) then 1 else 0)
  }

  /** `a` holds, cell by cell, what the move of `c` at (x, y) makes of `b` (see AppliedAt). */
  ghost predicate MovedCells(b: Board, a: Board, c: Player, x: int, y: int)
    requires InBounds(x, y)
  {
    forall p: Player, px, py :: InBounds(px, py) ==>
      a[Index(p, px, py)] ==
        if (px, py) == (x, y) then (p == c || b[Index(p, px, py)])
        else if Flipped(b, c, x, y, px, py) then p == c
        else b[Index(p, px, py)]
  }

  lemma AppliedMovedCells(b: Board, c: Player, x: int, y: int)
    requires InBounds(x, y)
    ensures MovedCells(b, Applied(b, c, x, y), c, x, y)
  {
    forall p: Player, px, py | InBounds(px, py) {
      AppliedAt(b, c, x, y, p, px, py);
    }
  }

  /** The stone-count change of cell q (row-major) under the move of `c` at (x, y). */
  ghost predicate CellDeltaHolds(b: Board, a: Board, c: Player, x: int, y: int, q: int)
    requires InBounds(x, y) && 0 <= q < CELLS
  {
    var f := if Flipped(b, c, x, y, q / N, q % N) then 1 else 0;
    var s := if q == x * N + y then 1 else 0;
    && (if a[c * CELLS + q] then 1 else 0) == (if b[c * CELLS + q] then 1 else 0) + s + f
    && (if a[Other(c) * CELLS + q] then 1 else 0) == (if b[Other(c) * CELLS + q] then 1 else 0) - f
  }

  /** The mover gains the target and every flipped cell; the opponent loses the flipped cells. */
  lemma CellDelta(b: Board, a: Board, c: Player, x: int, y: int, q: int)
    requires InBounds(x, y) && !At(b, 0, x, y) && !At(b, 1, x, y)
    requires MovedCells(b, a, c, x, y) && 0 <= q < CELLS
    ensures CellDeltaHolds(b, a, c, x, y, q)
  {
    var px, py := q / N, q % N;
    assert Index(c, px, py) == c * CELLS + q;
    assert Index(Other(c), px, py) == Other(c) * CELLS + q;
    assert (px, py) == (x, y) <==> q == x * N + y;
    if Flipped(b, c, x, y, px, py) {
      FlippedWasOpponent(b, c, x, y, px, py);
    }
  }

  lemma {:induction false} MoveCountsUpTo(b: Board, a: Board, c: Player, x: int, y: int, n: int)
    requires InBounds(x, y) && 0 <= n <= CELLS
    requires forall q :: 0 <= q < n ==> CellDeltaHolds(b, a, c, x, y, q)
    ensures Count(a, c, n) == Count(b, c, n) + (if x * N + y < n then 1 else 0) + FlipCount(b, c, x, y, n)
    ensures Count(a, Other(c), n) == Count(b, Other(c), n) - FlipCount(b, c, x, y, n)
  {
    if n > 0 {
      var q := n - 1;
      MoveCountsUpTo(b, a, c, x, y, q);
      assert CellDeltaHolds(b, a, c, x, y, q);
    }
  }

  lemma {:induction false} FlipCountPositive(b: Board, c: Player, x: int, y: int, n: int, q: int)
    requires InBounds(x, y) && 0 <= q < n <= CELLS && Flipped(b, c, x, y, q / N, q % N)
    ensures FlipCount(b, c, x, y, n) >= 1
  {
    if q < n - 1 {
      FlipCountPositive(b, c, x, y, n - 1, q);
    }
  }

  /** A legal move flips at least one stone: the one next to the target on a flanking ray. */
  lemma LegalFlipsOne(b: Board, c: Player, x: int, y: int)
    requires Legal(b, c, x, y)
    ensures FlipCount(b, c, x, y, CELLS) >= 1
  {
    var t :| 0 <= t < 8 && Flanks(b, c, x, y, t);
    ClosesIffFlanks(b, c, x, y, t);
    ScanStopProps(b, c, x, y, t);
    var p := Ray(x, y, t, 1);
    assert Continues(b, c, p);
    assert OnRun(x, y, t, 1, ScanStop(b, c, x, y, t), p.0, p.1);
    assert Flipped(b, c, x, y, p.0, p.1);
    var q := p.0 * N + p.1;
    assert q / N == p.0 && q % N == p.1;
    FlipCountPositive(b, c, x, y, CELLS, q);
  }

  /**
   * A legal move adds one stone for the mover plus f flipped ones, takes the
   * f flipped stones from the opponent (f >= 1), and so raises the number of
   * stones on the board by exactly one.
   */
  lemma MoveCounts(b: Board, c: Player, x: int, y: int)
    requires Legal(b, c, x, y)
    ensures var f := FlipCount(b, c, x, y, CELLS);
            && f >= 1
            && Count(Applied(b, c, x, y), c, CELLS) == Count(b, c, CELLS) + 1 + f
            && Count(Applied(b, c, x, y), Other(c), CELLS) == Count(b, Other(c), CELLS) - f
            && Stones(Applied(b, c, x, y)) == Stones(b) + 1
  {
    var a := Applied(b, c, x, y);
    AppliedMovedCells(b, c, x, y);
    forall q | 0 <= q < CELLS ensures CellDeltaHolds(b, a, c, x, y, q) {
      CellDelta(b, a, c, x, y, q);
    }
    MoveCountsUpTo(b, a, c, x, y, CELLS);
    LegalFlipsOne(b, c, x, y);
  }

  /** No cell holds a stone of both players. */
  ghost predicate OneStonePerCell(b: Board) {
    forall px, py :: InBounds(px, py) ==> !(At(b, 0, px, py) && At(b, 1, px, py))
  }

  /** A legal move keeps every cell to at most one stone. */
  lemma MoveKeepsOneStonePerCell(b: Board, c: Player, x: int, y: int)
    requires OneStonePerCell(b) && Legal(b, c, x, y)
    ensures OneStonePerCell(Applied(b, c, x, y))
  {
    forall px, py | InBounds(px, py)
      ensures !(At(Applied(b, c, x, y), 0, px, py) && At(Applied(b, c, x, y), 1, px, py))
    {
      AppliedAt(b, c, x, y, 0, px, py);
      AppliedAt(b, c, x, y, 1, px, py);
    }
  }

  // ---------------------------------------------------------------------------
  // The opening position.

  /** The standard opening: player 1 on (3, 3) and (4, 4), player 0 on (3, 4) and (4, 3). */
  function Opening(): (b: Board)
    ensures forall k :: 0 <= k < |b| ==>
              (b[k] <==> k == Index(1, 3, 3) || k == Index(0, 3, 4) || k == Index(0, 4, 3) || k == Index(1, 4, 4))
  {
    seq(128, k => k == Index(1, 3, 3) || k == Index(0, 3, 4) || k == Index(0, 4, 3) || k == Index(1, 4, 4))
  }

  /**
   * From the opening, player 0 may place on (2, 3), (3, 2), (4, 5) and
   * (5, 4): each flanks one stone of player 1 along a row or a column.
   */
  lemma OpeningMoves()
    ensures Legal(Opening(), 0, 2, 3) && Legal(Opening(), 0, 3, 2)
    ensures Legal(Opening(), 0, 4, 5) && Legal(Opening(), 0, 5, 4)
  {
    OpeningMove(2, 3, 3);
    OpeningMove(3, 2, 1);
    OpeningMove(4, 5, 0);
    OpeningMove(5, 4, 2);
  }

  /** Any flanking run from the opening for player 0 starts at one of the four opening moves. */
  lemma OpeningRunsOnly(x: int, y: int, t: int, k: int)
    requires 0 <= t < 8 && RunFrom(Opening(), 0, x, y, t, k)
    ensures (x, y) in {(2, 3), (3, 2), (4, 5), (5, 4)}
  {
    var b := Opening();
    var p, q := Ray(x, y, t, 1), Ray(x, y, t, 2);
    assert Continues(b, 0, p);
    assert p == (3, 3) || p == (4, 4);
    if k == 2 {
      assert q == (3, 4) || q == (4, 3);
    } else {
      assert false;
    }
  }

  /** From the opening, the four moves of OpeningMoves are the only legal ones for player 0. */
  lemma OpeningMovesExactly(x: int, y: int)
    ensures Legal(Opening(), 0, x, y) <==> (x, y) in {(2, 3), (3, 2), (4, 5), (5, 4)}
  {
    if Legal(Opening(), 0, x, y) {
      var t :| 0 <= t < 8 && Flanks(Opening(), 0, x, y, t);
      var k :| RunFrom(Opening(), 0, x, y, t, k);
      OpeningRunsOnly(x, y, t, k);
    }
    OpeningMoves();
  }

  /** One opening move: ray t from (x, y) passes a stone of player 1 and ends on one of player 0. */
  lemma OpeningMove(x: int, y: int, t: int)
    requires (x, y, t) in {(2, 3, 3), (3, 2, 1), (4, 5, 0), (5, 4, 2)}
    ensures Legal(Opening(), 0, x, y)
  {
    var b := Opening();
    var p, q := Ray(x, y, t, 1), Ray(x, y, t, 2);
    assert p == (3, 3) || p == (4, 4);
    assert q == (3, 4) || q == (4, 3);
    assert !At(b, 0, x, y) && !At(b, 1, x, y);
    assert Continues(b, 0, p);
    assert At(b, 0, q.0, q.1);
    assert RunFrom(b, 0, x, y, t, 2);
    assert Flanks(b, 0, x, y, t);
  }

  // ---------------------------------------------------------------------------
  // The end-of-game verdict.

  /**
   * The verdict GetWinner computes: -1 while either player has a legal
   * placement; otherwise -2 for equal stone counts, 1 if player 1 has more
   * stones and 0 if player 0 has more.
   */
  ghost function Winner(b: Board): int {
    if HasMove(b, 0) || HasMove(b, 1) then -1
    else if Count(b, 0, CELLS) == Count(b, 1, CELLS) then -2
    else if Count(b, 1, CELLS) > Count(b, 0, CELLS) then 1
    else 0
  }

  /** `GetWinner`: scans the cells in row-major order, probing both players and totalling stones. */
  method GetWinner(b: Board) returns (r: int)
    ensures r == Winner(b)
    ensures r == -1 <==> HasMove(b, 0) || HasMove(b, 1)
    ensures r == -2 <==> !HasMove(b, 0) && !HasMove(b, 1) && Count(b, 0, CELLS) == Count(b, 1, CELLS)
    ensures r == 1 <==> !HasMove(b, 0) && !HasMove(b, 1) && Count(b, 1, CELLS) > Count(b, 0, CELLS)
    ensures r == 0 <==> !HasMove(b, 0) && !HasMove(b, 1) && Count(b, 0, CELLS) > Count(b, 1, CELLS)
  {
    var tots := [0, 0];
    for x := 0 to N
      invariant tots == [Count(b, 0, x * N), Count(b, 1, x * N)]
      invariant forall px, py :: InBounds(px, py) && px < x ==> !Legal(b, 0, px, py) && !Legal(b, 1, px, py)
    {
      for y := 0 to N
        invariant tots == [Count(b, 0, x * N + y), Count(b, 1, x * N + y)]
        invariant forall px, py :: InBounds(px, py) && (px < x || (px == x && py < y)) ==>
                    !Legal(b, 0, px, py) && !Legal(b, 1, px, py)
      {
        var any;
        any, tots := ProbeCell(b, x, y, tots);
        if any {
          return -1;
        }
      }
    }
    assert !HasMove(b, 0) && !HasMove(b, 1);
    if tots[0] == tots[1] {
      return -2;
    }
    return if tots[1] > tots[0] then 1 else 0;
  }

  /** The body of GetWinner's scan for one cell: probe player 0 then player 1, adding each one's stone. */
  method ProbeCell(b: Board, x: int, y: int, tots: seq<int>) returns (any: bool, tots': seq<int>)
    requires InBounds(x, y)
    requires tots == [Count(b, 0, x * N + y), Count(b, 1, x * N + y)]
    ensures any <==> Legal(b, 0, x, y) || Legal(b, 1, x, y)
    ensures !any ==> tots' == [Count(b, 0, x * N + y + 1), Count(b, 1, x * N + y + 1)]
  {
    tots' := tots;
    for who := 0 to 2
      invariant tots' == [Count(b, 0, x * N + y + (if who > 0 then 1 else 0)),
                          Count(b, 1, x * N + y + (if who > 1 then 1 else 0))]
      invariant forall w: Player :: w < who ==> !Legal(b, w, x, y)
    {
      var legal := Place(b, who, x, y, null);
      if legal {
        return true, tots';
      }
      tots' := tots'[who := tots'[who] + if At(b, who, x, y) then 1 else 0];
    }
    any := false;
  }
}
