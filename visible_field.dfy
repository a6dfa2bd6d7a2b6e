/** What the player sees of a Minesweeper game: one status per square, the
    number of squares still covered, and whether a mine has gone off.  The
    player cycles guesses on covered squares and uncovers squares; uncovering a
    square without a mine floods open the region around it, uncovering a mine
    loses the game and shows the mines.
 */
module VisibleFieldModel {
  import opened Grids
  import opened MineFieldModel

  // Covered states, all negative.
  const COVERED := -1
  const MINE_GUESS := -2
  const QUESTION := -3

  // Uncovered states, all non-negative: 0..8 is the number of adjacent mines, and
  const MINE := 9             // a mine that was not guessed, shown when the game is lost
  const INCORRECT_GUESS := 10 // a guess on a square without a mine, shown when the game is lost
  const EXPLODED_MINE := 11   // the mine whose uncovering lost the game

  /** The statuses a square can have. */
  predicate LegalStatus(v: int) {
    QUESTION <= v <= EXPLODED_MINE
  }

  /** A status of the covered kind. */
  predicate IsCovered(v: int) {
    v < 0
  }

  predicate IsMineGuess(v: int) {
    v == MINE_GUESS
  }

  predicate IsPlainCovered(v: int) {
    v == COVERED
  }

  /** Number of squares of the covered kind. */
  function CoveredCount(s: seq<seq<int>>): nat {
    Count(s, IsCovered)
  }

  /** Number of squares marked as a mine guess. */
  function GuessCount(s: seq<seq<int>>): nat {
    Count(s, IsMineGuess)
  }

  /** Number of squares that are COVERED and carry no guess. */
  function PlainCoveredCount(s: seq<seq<int>>): nat {
    Count(s, IsPlainCovered)
  }

  /** A grid of the given size all of whose squares are COVERED has every square covered. */
  lemma AllCoveredCount(s: seq<seq<int>>, rows: int, cols: int)
    requires rows > 0 && cols >= 0 && Rect(s, rows, cols)
    requires forall i, j | 0 <= i < rows && 0 <= j < cols :: s[i][j] == COVERED
    ensures CoveredCount(s) == rows * cols
  {
    CountFull(s, IsCovered, 0, rows, 0, cols);
  }

  // ---------------------------------------------------------------------------
  // Guess cycling

  /** The status a square of status v takes when the player cycles its guess. */
  function NextGuess(v: int): int {
    if v < 0 then
      if v == COVERED then MINE_GUESS else if v == MINE_GUESS then QUESTION else COVERED
    else
      v
  }

  /** Cycling leaves uncovered squares alone, keeps covered squares covered and
      moves each of them on, and three cycles bring every square back. */
  lemma GuessCycle(v: int)
    requires LegalStatus(v)
    ensures v >= 0 ==> NextGuess(v) == v
    ensures v < 0 ==> NextGuess(v) < 0 && NextGuess(v) != v
    ensures NextGuess(NextGuess(NextGuess(v))) == v
  {
  }

  // ---------------------------------------------------------------------------
  // Losing

  /** The display after uncovering the mine at (row, col) in a display s0: that
      square explodes, every other guess on a square without a mine is shown
      wrong, every other mine neither guessed nor exploded is shown, and nothing
      else changes. */
  ghost predicate LossDisplay(s0: seq<seq<int>>, s1: seq<seq<int>>, g: seq<seq<bool>>, row: int, col: int) {
    SameShape(s0, s1) &&
    0 <= row < |s0| && 0 <= col < |s0[row]| && s1[row][col] == EXPLODED_MINE &&
    forall i, j | 0 <= i < |s0| && 0 <= j < |s0[i]| && (i != row || j != col) ::
      var wrongGuess := !MineAt(g, i, j) && s0[i][j] == MINE_GUESS;
      var hiddenMine := MineAt(g, i, j) && s0[i][j] != MINE_GUESS && s0[i][j] != EXPLODED_MINE;
      (wrongGuess ==> s1[i][j] == INCORRECT_GUESS) &&
      (hiddenMine ==> s1[i][j] == MINE) &&
      (!wrongGuess && !hiddenMine ==> s1[i][j] == s0[i][j])
  }

  /** After a loss every mine is on show (guessed, revealed or exploded) and
      every guess still shown is on a mine. */
  lemma LossShowsMines(s0: seq<seq<int>>, s1: seq<seq<int>>, g: seq<seq<bool>>, row: int, col: int)
    requires LossDisplay(s0, s1, g, row, col) && MineAt(g, row, col)
    ensures forall i, j | 0 <= i < |s1| && 0 <= j < |s1[i]| && MineAt(g, i, j) ::
              s1[i][j] in {MINE_GUESS, MINE, EXPLODED_MINE}
    ensures forall i, j | 0 <= i < |s1| && 0 <= j < |s1[i]| && s1[i][j] == MINE_GUESS :: MineAt(g, i, j)
  {
  }

  /** The status uncover's loss sweep gives a square of status v. */
  function Revealed(v: int, mine: bool): int {
    if !mine && v == MINE_GUESS then INCORRECT_GUESS
    else if mine && v != MINE_GUESS && v != EXPLODED_MINE then MINE
    else v
  }

  // ---------------------------------------------------------------------------
  // Winning

  /** While every mine is covered, at least as many squares are covered as
      there are mines, and exactly as many when every square without a mine
      is uncovered. */
  lemma CoveredAtLeastMines(s: seq<seq<int>>, g: seq<seq<bool>>, rows: int, cols: int)
    requires Rect(g, rows, cols) && Rect(s, rows, cols)
    requires forall i, j | 0 <= i < rows && 0 <= j < cols && g[i][j] :: s[i][j] < 0
    ensures CoveredCount(s) >= MineCount(g)
    ensures CoveredCount(s) == MineCount(g) <==>
              forall i, j | 0 <= i < rows && 0 <= j < cols && !g[i][j] :: s[i][j] >= 0
  {
    if rows > 0 {
      assert Width(g) == cols && Width(s) == cols;
    }
    CountMono(g, IsMine, s, IsCovered, 0, rows, 0, cols);
    if CoveredCount(s) == MineCount(g) {
      forall i, j | 0 <= i < rows && 0 <= j < cols && !g[i][j]
        ensures s[i][j] >= 0
      {
        assert !At(g, IsMine, i, j);
      }
    }
    if forall i, j | 0 <= i < rows && 0 <= j < cols && !g[i][j] :: s[i][j] >= 0 {
      CountMono(s, IsCovered, g, IsMine, 0, rows, 0, cols);
    }
  }

  // ---------------------------------------------------------------------------
  // Flood fill

  /** s1 differs from s0 only on COVERED squares without a mine, each of which
      shows its number of neighbouring mines in s1. */
  ghost predicate FloodStep(s0: seq<seq<int>>, s1: seq<seq<int>>, g: seq<seq<bool>>) {
    SameShape(s0, s1) &&
    forall i, j | 0 <= i < |s0| && 0 <= j < |s0[i]| ::
      s1[i][j] == s0[i][j] ||
      (s0[i][j] == COVERED && !MineAt(g, i, j) && s1[i][j] == NeighbourMines(g, i, j))
  }

  /** No square of the 3x3 block around (i, j) is COVERED in s. */
  ghost predicate NoCoveredAround(s: seq<seq<int>>, i: int, j: int) {
    forall k, l | 0 <= k < |s| && 0 <= l < |s[k]| && i - 1 <= k <= i + 1 && j - 1 <= l <= j + 1 ::
      s[k][l] != COVERED
  }

  /** Every square uncovered to 0 between s0 and s1 has no COVERED square around it in s1. */
  ghost predicate FloodClosed(s0: seq<seq<int>>, s1: seq<seq<int>>) {
    forall i, j | 0 <= i < |s0| && 0 <= j < |s0[i]| && i < |s1| && j < |s1[i]| ::
      s0[i][j] == COVERED && s1[i][j] == 0 ==> NoCoveredAround(s1, i, j)
  }

  /** (i, j) is not a COVERED square without a mine: the flood has nothing to do there. */
  ghost predicate Settled(s: seq<seq<int>>, g: seq<seq<bool>>, i: int, j: int) {
    0 <= i < |s| && 0 <= j < |s[i]| && !MineAt(g, i, j) ==> s[i][j] != COVERED
  }




  /** A flood step never adds COVERED squares. */
  lemma FloodStepShrinks(s0: seq<seq<int>>, s1: seq<seq<int>>, g: seq<seq<bool>>)
    requires FloodStep(s0, s1, g)
    ensures PlainCoveredCount(s1) <= PlainCoveredCount(s0)
  {
    CountMono(s1, IsPlainCovered, s0, IsPlainCovered, 0, |s1|, 0, Width(s1));
    assert Width(s1) == Width(s0);
  }

  /** The statuses of a square before and after differ. */
  predicate Changed(p: (int, int)) {
    p.0 != p.1
  }

  /** Number of squares whose status differs between s0 and s1. */
  function ChangedCount(s0: seq<seq<int>>, s1: seq<seq<int>>): nat
    requires SameShape(s0, s1)
  {
    Count(Zip(s0, s1), Changed)
  }

  /** A flood step uncovers every square it changes, so the number of covered
      squares falls by exactly the number of changed squares. */
  lemma FloodUncoversChanged(s0: seq<seq<int>>, s1: seq<seq<int>>, g: seq<seq<bool>>)
    requires FloodStep(s0, s1, g)
    ensures CoveredCount(s0) == CoveredCount(s1) + ChangedCount(s0, s1)
  {
    var z := Zip(s0, s1);
    assert Width(s1) == Width(s0) && Width(z) == Width(s0);
    CountSplit(s0, IsCovered, s1, IsCovered, z, Changed, 0, |s0|, 0, Width(s0));
  }

  /** Uncovering the one COVERED square (row, col) without a mine to its
      neighbour count is a flood step that uncovers exactly one square. */
  lemma UncoverOne(s0: seq<seq<int>>, s1: seq<seq<int>>, g: seq<seq<bool>>, rows: int, cols: int, row: int, col: int)
    requires Rect(s0, rows, cols) && Rect(s1, rows, cols)
    requires 0 <= row < rows && 0 <= col < cols
    requires s0[row][col] == COVERED && !MineAt(g, row, col) && s1[row][col] == NeighbourMines(g, row, col)
    requires forall i, j | 0 <= i < rows && 0 <= j < cols && (i != row || j != col) :: s1[i][j] == s0[i][j]
    ensures FloodStep(s0, s1, g)
    ensures CoveredCount(s1) == CoveredCount(s0) - 1
    ensures PlainCoveredCount(s1) == PlainCoveredCount(s0) - 1
    ensures s1[row][col] != 0 ==> FloodClosed(s0, s1)
    ensures FloodFrom(s0, s1, g, row, col)
  {
    forall i, j | 0 <= i < |s0| && 0 <= j < |s0[i]| && i < |s1| && j < |s1[i]| && s1[i][j] != s0[i][j]
      ensures exists path :: PathTo(s0, g, path, i, j) && path[0] == (row, col)
    {
      assert PathTo(s0, g, [(row, col)], i, j);
    }
    CountOneMore(s1, IsCovered, s0, IsCovered, 0, rows, 0, cols, row, col);
    CountOneMore(s1, IsPlainCovered, s0, IsPlainCovered, 0, rows, 0, cols, row, col);
  }

  /** The k-th of the eight squares around (row, col), in the order the flood visits them. */
  function Neighbour(row: int, col: int, k: int): (int, int) {
    if k == 0 then (row - 1, col - 1)
    else if k == 1 then (row - 1, col)
    else if k == 2 then (row - 1, col + 1)
    else if k == 3 then (row, col - 1)
    else if k == 4 then (row, col + 1)
    else if k == 5 then (row + 1, col - 1)
    else if k == 6 then (row + 1, col)
    else (row + 1, col + 1)
  }

  /** The first m squares around (row, col), in visiting order, are settled in t. */
  ghost predicate AroundSettled(t: seq<seq<int>>, g: seq<seq<bool>>, row: int, col: int, m: int) {
    (m > 0 ==> Settled(t, g, row - 1, col - 1)) &&
    (m > 1 ==> Settled(t, g, row - 1, col)) &&
    (m > 2 ==> Settled(t, g, row - 1, col + 1)) &&
    (m > 3 ==> Settled(t, g, row, col - 1)) &&
    (m > 4 ==> Settled(t, g, row, col + 1)) &&
    (m > 5 ==> Settled(t, g, row + 1, col - 1)) &&
    (m > 6 ==> Settled(t, g, row + 1, col)) &&
    (m > 7 ==> Settled(t, g, row + 1, col + 1))
  }

  /** The flood from s1 has reached t, opening only squares reached from around
      (row, col), and the first m squares around (row, col) are settled in t. */
  ghost predicate FloodSoFar(s1: seq<seq<int>>, t: seq<seq<int>>, g: seq<seq<bool>>, row: int, col: int, m: int) {
    FloodStep(s1, t, g) && FloodClosed(s1, t) && FloodNear(s1, t, g, row, col) && AroundSettled(t, g, row, col, m)
  }

  lemma FloodSoFarStart(s: seq<seq<int>>, g: seq<seq<bool>>, row: int, col: int)
    ensures FloodSoFar(s, s, g, row, col, 0)
  {
  }

  /** A closed flood step that settles the next square around (row, col) extends the progress. */
  lemma FloodAdvance(s1: seq<seq<int>>, t: seq<seq<int>>, u: seq<seq<int>>, g: seq<seq<bool>>,
                     row: int, col: int, m: int, r: int, c: int)
    requires 0 <= m < 8 && FloodSoFar(s1, t, g, row, col, m)
    requires (r, c) == Neighbour(row, col, m)
    requires FloodStep(t, u, g) && FloodClosed(t, u) && FloodFrom(t, u, g, r, c) && Settled(u, g, r, c)
    ensures FloodSoFar(s1, u, g, row, col, m + 1)
  {
    forall i, j | 0 <= i < |s1| && 0 <= j < |s1[i]| && i < |u| && j < |u[i]| && u[i][j] != s1[i][j]
      ensures exists path :: PathTo(s1, g, path, i, j) && Near(path[0], row, col)
    {
      if t[i][j] == s1[i][j] {
        var path :| PathTo(t, g, path, i, j) && path[0] == (r, c);
        ZeroPathBack(s1, t, g, path);
        assert PathTo(s1, g, path, i, j) && Near(path[0], row, col);
      }
    }
  }

  /** Uncovering (row, col) to 0 and then settling all eight squares around it
      is a closed flood step from before the square was uncovered. */
  lemma FloodFinish(s0: seq<seq<int>>, s1: seq<seq<int>>, t: seq<seq<int>>, g: seq<seq<bool>>, row: int, col: int)
    requires FloodStep(s0, s1, g) && FloodSoFar(s1, t, g, row, col, 8)
    requires 0 <= row < |s0| && 0 <= col < |s0[row]| && s0[row][col] == COVERED && s1[row][col] == 0
    requires forall i, j | 0 <= i < |s0| && 0 <= j < |s0[i]| && (i != row || j != col) :: s1[i][j] == s0[i][j]
    requires NeighbourMines(g, row, col) == 0 && !MineAt(g, row, col)
    ensures FloodStep(s0, t, g) && FloodClosed(s0, t) && t[row][col] == 0
  {
  }

  /** What the calls around (row, col) opened, together with (row, col) itself,
      is reached from (row, col) by zero paths of the display before it was opened. */
  lemma FloodFromAround(s0: seq<seq<int>>, s1: seq<seq<int>>, t: seq<seq<int>>, g: seq<seq<bool>>, row: int, col: int)
    requires FloodStep(s0, s1, g) && FloodNear(s1, t, g, row, col) && SameShape(s1, t)
    requires 0 <= row < |s0| && 0 <= col < |s0[row]| && s0[row][col] == COVERED
    requires forall i, j | 0 <= i < |s0| && 0 <= j < |s0[i]| && (i != row || j != col) :: s1[i][j] == s0[i][j]
    requires NeighbourMines(g, row, col) == 0 && !MineAt(g, row, col)
    ensures FloodFrom(s0, t, g, row, col)
  {
    forall i, j | 0 <= i < |s0| && 0 <= j < |s0[i]| && i < |t| && j < |t[i]| && t[i][j] != s0[i][j]
      ensures exists path :: PathTo(s0, g, path, i, j) && path[0] == (row, col)
    {
      if i == row && j == col {
        assert PathTo(s0, g, [(row, col)], i, j);
      } else {
        var path :| PathTo(s1, g, path, i, j) && Near(path[0], row, col);
        ZeroPathBack(s0, s1, g, path);
        ZeroPathPrepend(s0, g, row, col, path);
        assert ([(row, col)] + path)[|path|] == path[|path| - 1];
        assert PathTo(s0, g, [(row, col)] + path, i, j);
      }
    }
  }

  /** A path from path[0] through COVERED squares without mines of s0, each step
      to one of the eight squares around, leaving only squares with no mine
      around them. */
  ghost predicate ZeroPath(s0: seq<seq<int>>, g: seq<seq<bool>>, path: seq<(int, int)>)
    decreases |path|
  {
    |path| > 0 &&
    0 <= path[0].0 < |s0| && 0 <= path[0].1 < |s0[path[0].0]| &&
    s0[path[0].0][path[0].1] == COVERED && !MineAt(g, path[0].0, path[0].1) &&
    (|path| > 1 ==>
      NeighbourMines(g, path[0].0, path[0].1) == 0 &&
      path[0].0 - 1 <= path[1].0 <= path[0].0 + 1 && path[0].1 - 1 <= path[1].1 <= path[0].1 + 1 &&
      ZeroPath(s0, g, path[1..]))
  }

  /** A closed flood step that uncovered a square with no mine around it uncovered every square around it. */
  lemma FloodSpreads(s0: seq<seq<int>>, s1: seq<seq<int>>, g: seq<seq<bool>>, a: (int, int), b: (int, int))
    requires FloodStep(s0, s1, g) && FloodClosed(s0, s1)
    requires 0 <= a.0 < |s0| && 0 <= a.1 < |s0[a.0]| && s0[a.0][a.1] == COVERED && s1[a.0][a.1] != COVERED
    requires NeighbourMines(g, a.0, a.1) == 0
    requires 0 <= b.0 < |s1| && 0 <= b.1 < |s1[b.0]| && a.0 - 1 <= b.0 <= a.0 + 1 && a.1 - 1 <= b.1 <= a.1 + 1
    ensures s1[b.0][b.1] != COVERED
  {
  }

  /** A closed flood step that uncovered the start of a zero path uncovered the
      whole path, each square to its neighbour count. */
  lemma {:induction false} FloodReachesRegion(s0: seq<seq<int>>, s1: seq<seq<int>>, g: seq<seq<bool>>,
                                              path: seq<(int, int)>)
    requires FloodStep(s0, s1, g) && FloodClosed(s0, s1)
    requires ZeroPath(s0, g, path)
    requires s1[path[0].0][path[0].1] != COVERED
    ensures var last := path[|path| - 1];
              0 <= last.0 < |s1| && 0 <= last.1 < |s1[last.0]| && s1[last.0][last.1] == NeighbourMines(g, last.0, last.1)
    decreases |path|
  {
    if |path| > 1 {
      FloodSpreads(s0, s1, g, path[0], path[1]);
      FloodReachesRegion(s0, s1, g, path[1..]);
      assert path[1..][|path| - 2] == path[|path| - 1];
    }
  }

  /** path is a zero path of s0 that ends at (i, j). */
  ghost predicate PathTo(s0: seq<seq<int>>, g: seq<seq<bool>>, path: seq<(int, int)>, i: int, j: int) {
    ZeroPath(s0, g, path) && path[|path| - 1] == (i, j)
  }

  /** Square p is (row, col) or one of the eight squares around it. */
  predicate Near(p: (int, int), row: int, col: int) {
    row - 1 <= p.0 <= row + 1 && col - 1 <= p.1 <= col + 1
  }

  /** Every square that differs between s0 and s1 ends a zero path of s0 from (row, col):
      the flood opened nothing it could not reach through squares with no mine around. */
  ghost predicate FloodFrom(s0: seq<seq<int>>, s1: seq<seq<int>>, g: seq<seq<bool>>, row: int, col: int) {
    forall i, j | 0 <= i < |s0| && 0 <= j < |s0[i]| && i < |s1| && j < |s1[i]| && s1[i][j] != s0[i][j] ::
      exists path :: PathTo(s0, g, path, i, j) && path[0] == (row, col)
  }

  /** Every square that differs between s1 and t ends a zero path of s1 from a square around (row, col). */
  ghost predicate FloodNear(s1: seq<seq<int>>, t: seq<seq<int>>, g: seq<seq<bool>>, row: int, col: int) {
    forall i, j | 0 <= i < |s1| && 0 <= j < |s1[i]| && i < |t| && j < |t[i]| && t[i][j] != s1[i][j] ::
      exists path :: PathTo(s1, g, path, i, j) && Near(path[0], row, col)
  }

  /** A zero path in a display reached by a flood step was one before it: the flood only uncovers. */
  lemma {:induction false} ZeroPathBack(s0: seq<seq<int>>, t: seq<seq<int>>, g: seq<seq<bool>>, path: seq<(int, int)>)
    requires FloodStep(s0, t, g) && ZeroPath(t, g, path)
    ensures ZeroPath(s0, g, path)
    decreases |path|
  {
    if |path| > 1 {
      ZeroPathBack(s0, t, g, path[1..]);
    }
  }

  /** A COVERED square with no mine around it extends a zero path that starts next to it. */
  lemma ZeroPathPrepend(s0: seq<seq<int>>, g: seq<seq<bool>>, row: int, col: int, path: seq<(int, int)>)
    requires ZeroPath(s0, g, path) && Near(path[0], row, col)
    requires 0 <= row < |s0| && 0 <= col < |s0[row]| && s0[row][col] == COVERED
    requires !MineAt(g, row, col) && NeighbourMines(g, row, col) == 0
    ensures ZeroPath(s0, g, [(row, col)] + path)
  {
  }

  /** A flood from a square with a mine around it opens that square alone. */
  lemma NonZeroOpensOnlyItself(s0: seq<seq<int>>, s1: seq<seq<int>>, g: seq<seq<bool>>, row: int, col: int)
    requires FloodFrom(s0, s1, g, row, col) && NeighbourMines(g, row, col) != 0
    ensures forall i, j | 0 <= i < |s0| && 0 <= j < |s0[i]| && i < |s1| && j < |s1[i]| && s1[i][j] != s0[i][j] ::
              i == row && j == col
  {
  }

  /** A flood never opens a square the player has guessed or questioned: such
      squares are never on a zero path, so they wall the flood off. */
  lemma FloodSkipsMarked(s0: seq<seq<int>>, s1: seq<seq<int>>, g: seq<seq<bool>>, row: int, col: int, i: int, j: int)
    requires FloodFrom(s0, s1, g, row, col)
    requires 0 <= i < |s0| && 0 <= j < |s0[i]| && i < |s1| && j < |s1[i]| && s0[i][j] != COVERED
    ensures s1[i][j] == s0[i][j]
  {
    if s1[i][j] != s0[i][j] {
      var path :| PathTo(s0, g, path, i, j) && path[0] == (row, col);
      LastOnPathCovered(s0, g, path);
    }
  }

  /** Every square of a zero path, the last included, is COVERED. */
  lemma {:induction false} LastOnPathCovered(s0: seq<seq<int>>, g: seq<seq<bool>>, path: seq<(int, int)>)
    requires ZeroPath(s0, g, path)
    ensures var last := path[|path| - 1];
              0 <= last.0 < |s0| && 0 <= last.1 < |s0[last.0]| && s0[last.0][last.1] == COVERED
    decreases |path|
  {
    if |path| > 1 {
      LastOnPathCovered(s0, g, path[1..]);
      assert path[1..][|path| - 2] == path[|path| - 1];
    }
  }

  class VisibleField {
    const mineField: MineField
    const visibleField: array2<int>
    var numCovered: int
    var explodedMine: bool

    /** The status of every square, row by row. */
    ghost function Status(): seq<seq<int>>
      reads visibleField
    {
      Snapshot(visibleField)
    }

    /** Where the mines of the underlying field are. */
    ghost function Mines(): seq<seq<bool>>
      reads mineField.mineData
    {
      mineField.Cells()
    }

    /** The display matches the field in size, every square has a legal status,
        and until a mine goes off numCovered counts the covered squares. */
    ghost predicate Valid()
      reads this, visibleField
    {
      mineField.Valid() &&
      visibleField.Length0 == mineField.numRow && visibleField.Length1 == mineField.numCol &&
      (forall i, j | 0 <= i < visibleField.Length0 && 0 <= j < visibleField.Length1 ::
         LegalStatus(visibleField[i, j])) &&
      (!explodedMine ==> numCovered == CoveredCount(Status()))
    }

    /** A display over mineField with every square COVERED and no mine gone off. */
    constructor (mineField: MineField)
      requires mineField.Valid()
      ensures Valid() && this.mineField == mineField && fresh(visibleField)
      ensures forall i, j | 0 <= i < mineField.numRow && 0 <= j < mineField.numCol :: visibleField[i, j] == COVERED
      ensures numCovered == mineField.numRow * mineField.numCol && !explodedMine
    {
      this.mineField := mineField;
      var field := new int[mineField.NumRows(), mineField.NumCols()];
      for i := 0 to mineField.NumRows()
        invariant forall k, l | 0 <= k < i && 0 <= l < mineField.numCol :: field[k, l] == COVERED
      {
        for j := 0 to mineField.NumCols()
          invariant forall k, l | 0 <= k < i && 0 <= l < mineField.numCol :: field[k, l] == COVERED
          invariant forall l | 0 <= l < j :: field[i, l] == COVERED
        {
          field[i, j] := COVERED;
        }
      }
      visibleField := field;
      numCovered := mineField.NumRows() * mineField.NumCols();
      explodedMine := false;
      new;
      AllCoveredCount(Status(), mineField.numRow, mineField.numCol);
    }

    /** Returns the display to its initial state over the same mine field. */
    method ResetGameDisplay()
      requires Valid()
      modifies this, visibleField
      ensures Valid()
      ensures forall i, j | 0 <= i < mineField.numRow && 0 <= j < mineField.numCol :: visibleField[i, j] == COVERED
      ensures numCovered == mineField.numRow * mineField.numCol && !explodedMine
    {
      for i := 0 to mineField.NumRows()
        modifies visibleField
        invariant forall k, l | 0 <= k < i && 0 <= l < mineField.numCol :: visibleField[k, l] == COVERED
      {
        for j := 0 to mineField.NumCols()
          modifies visibleField
          invariant forall k, l | 0 <= k < i && 0 <= l < mineField.numCol :: visibleField[k, l] == COVERED
          invariant forall l | 0 <= l < j :: visibleField[i, l] == COVERED
        {
          visibleField[i, j] := COVERED;
        }
      }
      numCovered := mineField.NumRows() * mineField.NumCols();
      explodedMine := false;
      AllCoveredCount(Status(), mineField.numRow, mineField.numCol);
    }

    /** The status of square (row, col). */
    function GetStatus(row: int, col: int): (v: int)
      requires Valid() && mineField.InRange(row, col)
      reads this, visibleField
      ensures v == Status()[row][col] && LegalStatus(v)
    {
      visibleField[row, col]
    }

    /** The number of mines minus the number of mine guesses; negative when the
        player has guessed more squares than there are mines. */
    method NumMinesLeft() returns (counter: int)
      requires Valid()
      ensures counter == mineField.numMines - GuessCount(Status())
    {
      ghost var s := Status();
      counter := mineField.NumMines();
      for i := 0 to mineField.NumRows()
        invariant counter == mineField.numMines - CountIn(s, IsMineGuess, 0, i, 0, mineField.numCol)
      {
        for j := 0 to mineField.NumCols()
          invariant counter == mineField.numMines - CountIn(s, IsMineGuess, 0, i, 0, mineField.numCol)
                                                  - CountRow(s, IsMineGuess, i, 0, j)
        {
          if visibleField[i, j] == MINE_GUESS {
            counter := counter - 1;
          }
        }
      }
    }

    /** Moves a covered square on along COVERED -> MINE_GUESS -> QUESTION -> COVERED;
        an uncovered square is left alone, and so is every other square. */
    method CycleGuess(row: int, col: int)
      requires Valid() && mineField.InRange(row, col)
      modifies visibleField
      ensures Valid()
      ensures visibleField[row, col] == NextGuess(old(visibleField[row, col]))
      ensures forall i, j | 0 <= i < mineField.numRow && 0 <= j < mineField.numCol && (i != row || j != col) ::
                visibleField[i, j] == old(visibleField[i, j])
      ensures numCovered == old(numCovered)
    {
      ghost var s0 := Status();
      if visibleField[row, col] < 0 {
        if visibleField[row, col] == COVERED {
          visibleField[row, col] := MINE_GUESS;
        } else if visibleField[row, col] == MINE_GUESS {
          visibleField[row, col] := QUESTION;
        } else {
          visibleField[row, col] := COVERED;
        }
      }
      CountSame(s0, IsCovered, Status(), IsCovered, 0, mineField.numRow, 0, mineField.numCol);
    }

    /** Uncovers (row, col).  On a mine the game is lost: the square explodes and
        the mines and wrong guesses are shown.  Otherwise the region around the
        square is flooded open, and the answer is true. */
    method Uncover(row: int, col: int) returns (safe: bool)
      requires Valid() && mineField.InRange(row, col)
      modifies this, visibleField
      ensures Valid()
      ensures safe <==> !MineAt(Mines(), row, col)
      ensures safe ==> explodedMine == old(explodedMine)
      ensures safe ==> FloodStep(old(Status()), Status(), Mines()) && FloodClosed(old(Status()), Status())
      ensures safe ==> FloodFrom(old(Status()), Status(), Mines(), row, col)
      ensures safe ==> Status()[row][col] != COVERED
      ensures safe ==> numCovered == old(numCovered) - ChangedCount(old(Status()), Status())
      ensures safe && old(Status())[row][col] != COVERED ==> Status() == old(Status()) && numCovered == old(numCovered)
      ensures !safe ==> explodedMine && numCovered == old(numCovered)
      ensures !safe ==> LossDisplay(old(Status()), Status(), Mines(), row, col)
    {
      if mineField.HasMine(row, col) {
        ghost var s0 := Status();
        explodedMine := true;
        visibleField[row, col] := EXPLODED_MINE;
        ghost var s1 := Status();
        ghost var g := Mines();
        for i := 0 to mineField.NumRows()
          modifies visibleField
          invariant forall k, l | 0 <= k < i && 0 <= l < mineField.numCol :: visibleField[k, l] == Revealed(s1[k][l], g[k][l])
          invariant forall k, l | i <= k < mineField.numRow && 0 <= l < mineField.numCol :: visibleField[k, l] == s1[k][l]
        {
          for j := 0 to mineField.NumCols()
            modifies visibleField
            invariant forall k, l | 0 <= k < i && 0 <= l < mineField.numCol :: visibleField[k, l] == Revealed(s1[k][l], g[k][l])
            invariant forall l | 0 <= l < j :: visibleField[i, l] == Revealed(s1[i][l], g[i][l])
            invariant forall k, l | i <= k < mineField.numRow && 0 <= l < mineField.numCol && (k != i || l >= j) ::
                        visibleField[k, l] == s1[k][l]
          {
            if !mineField.HasMine(i, j) && visibleField[i, j] == MINE_GUESS {
              visibleField[i, j] := INCORRECT_GUESS;
            }
            if mineField.HasMine(i, j) && visibleField[i, j] != MINE_GUESS && visibleField[i, j] != EXPLODED_MINE {
              visibleField[i, j] := MINE;
            }
          }
        }
        safe := false;
      } else {
        ghost var s0 := Status();
        UncoverHelper(row, col);
        FloodUncoversChanged(s0, Status(), Mines());
        safe := true;
      }
    }

    /** The game is over once a mine has gone off or only as many squares as
        there are mines are still covered. */
    function IsGameOver(): (over: bool)
      reads this, visibleField
      ensures explodedMine ==> over
      ensures Valid() && !explodedMine ==> (over <==> CoveredCount(Status()) == mineField.numMines)
    {
      if numCovered == mineField.numMines then true
      else if explodedMine then true
      else false
    }

    /** Square (row, col) shows one of the uncovered statuses. */
    function IsUncovered(row: int, col: int): (u: bool)
      requires Valid() && mineField.InRange(row, col)
      reads this, visibleField
      ensures u <==> 0 <= Status()[row][col] <= EXPLODED_MINE
    {
      visibleField[row, col] >= 0
    }

    /** Uncovers (row, col) if it is a COVERED square without a mine, and then,
        if no mine is around it, every square around it in turn. */
    method UncoverHelper(row: int, col: int)
      requires Valid()
      modifies this`numCovered, visibleField
      ensures Valid() && Mines() == old(Mines())
      ensures FloodStep(old(Status()), Status(), Mines()) && FloodClosed(old(Status()), Status())
      ensures Settled(Status(), Mines(), row, col)
      ensures FloodFrom(old(Status()), Status(), Mines(), row, col)
      ensures !(mineField.InRange(row, col) && old(visibleField[row, col]) == COVERED && !MineAt(Mines(), row, col)) ==>
                Status() == old(Status()) && numCovered == old(numCovered)
      ensures numCovered - CoveredCount(Status()) == old(numCovered) - old(CoveredCount(Status()))
      decreases PlainCoveredCount(Status()), 1
    {
      ghost var g := Mines();
      ghost var s0 := Status();
      if mineField.InRange(row, col) && !IsUncovered(row, col) && !mineField.HasMine(row, col) &&
         visibleField[row, col] != MINE_GUESS && visibleField[row, col] != QUESTION {
        var n := mineField.NumAdjacentMines(row, col);
        if n > 0 {
          visibleField[row, col] := n;
          numCovered := numCovered - 1;
          UncoverOne(s0, Status(), g, mineField.numRow, mineField.numCol, row, col);
        } else {
          numCovered := numCovered - 1;
          visibleField[row, col] := n;
          UncoverOne(s0, Status(), g, mineField.numRow, mineField.numCol, row, col);
          UncoverAround(row, col, s0);
        }
      }
    }

    /** With (row, col) just uncovered to 0, uncovers every square around it in
        turn; together with that first square this is a closed flood step from s0. */
    method UncoverAround(row: int, col: int, ghost s0: seq<seq<int>>)
      requires Valid() && mineField.InRange(row, col)
      requires FloodStep(s0, Status(), Mines()) && s0[row][col] == COVERED && Status()[row][col] == 0
      requires forall i, j | 0 <= i < |s0| && 0 <= j < |s0[i]| && (i != row || j != col) :: Status()[i][j] == s0[i][j]
      requires NeighbourMines(Mines(), row, col) == 0 && !MineAt(Mines(), row, col)
      modifies this`numCovered, visibleField
      ensures Valid() && Mines() == old(Mines())
      ensures FloodStep(s0, Status(), Mines()) && FloodClosed(s0, Status()) && Status()[row][col] == 0
      ensures FloodFrom(s0, Status(), Mines(), row, col)
      ensures numCovered - CoveredCount(Status()) == old(numCovered) - old(CoveredCount(Status()))
      decreases PlainCoveredCount(Status()), 4
    {
      ghost var s1 := Status();
      FloodSoFarStart(s1, Mines(), row, col);
      UncoverNext(row - 1, col - 1, row, col, 0, s1);
      UncoverNext(row - 1, col, row, col, 1, s1);
      UncoverNext(row - 1, col + 1, row, col, 2, s1);
      UncoverNext(row, col - 1, row, col, 3, s1);
      UncoverAroundRest(row, col, s1);
      FloodFinish(s0, s1, Status(), Mines(), row, col);
      FloodFromAround(s0, s1, Status(), Mines(), row, col);
    }

    /** The second half of the flood around (row, col): the square to its right
        and the three squares below it. */
    method UncoverAroundRest(row: int, col: int, ghost s1: seq<seq<int>>)
      requires Valid() && FloodSoFar(s1, Status(), Mines(), row, col, 4)
      modifies this`numCovered, visibleField
      ensures Valid() && Mines() == old(Mines())
      ensures FloodSoFar(s1, Status(), Mines(), row, col, 8)
      ensures numCovered - CoveredCount(Status()) == old(numCovered) - old(CoveredCount(Status()))
      decreases PlainCoveredCount(s1), 3
    {
      UncoverNext(row, col + 1, row, col, 4, s1);
      UncoverNext(row + 1, col - 1, row, col, 5, s1);
      UncoverNext(row + 1, col, row, col, 6, s1);
      UncoverNext(row + 1, col + 1, row, col, 7, s1);
    }

    /** The recursive call on (r, c), the m-th square around (row, col), which
        extends the flood from (row, col) by one settled square. */
    method UncoverNext(r: int, c: int, ghost row: int, ghost col: int, ghost m: int, ghost s1: seq<seq<int>>)
      requires Valid() && 0 <= m < 8 && (r, c) == Neighbour(row, col, m)
      requires FloodSoFar(s1, Status(), Mines(), row, col, m)
      modifies this`numCovered, visibleField
      ensures Valid() && Mines() == old(Mines())
      ensures FloodSoFar(s1, Status(), Mines(), row, col, m + 1)
      ensures numCovered - CoveredCount(Status()) == old(numCovered) - old(CoveredCount(Status()))
      decreases PlainCoveredCount(s1), 2
    {
      ghost var t := Status();
      FloodStepShrinks(s1, t, Mines());
      UncoverHelper(r, c);
      FloodAdvance(s1, t, Status(), Mines(), row, col, m, r, c);
    }
  }
}
