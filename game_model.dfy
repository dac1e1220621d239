/** The state of a `GameMemory` object (environment/game.py) as a value, and
  * what each of its operations does to that value. The class in game.dfy is
  * proved to follow these functions; the lemmas here say what they guarantee. */
module GameModel {
  import opened Wrappers
  import opened PyText
  import opened Board

  /** Every field of a `GameMemory` object: `size`, `board`, `shown`, `score`,
    * `moves_made` and `game_over`. */
  datatype GameState = GameState(
    size: int,
    board: seq<seq<int>>,
    shown: seq<seq<bool>>,
    score: int,
    moves: int,
    gameOver: bool)

  /** Board and mask are square grids of one side. The side is `|board|`, which
    * differs from `size` after a `reset` that raised. */
  predicate WellFormed(st: GameState) {
    Grid(st.board, st.shown)
  }

  predicate Grid(board: seq<seq<int>>, shown: seq<seq<bool>>) {
    IsSquare(board, |board|) && IsSquare(shown, |board|)
  }

  predicate InGrid(st: GameState, i: int, j: int) {
    0 <= i < |st.board| && 0 <= j < |st.board|
  }

  /** `np.all(shown)`. */
  predicate AllShown(shown: seq<seq<bool>>) {
    forall i, j :: 0 <= i < |shown| && 0 <= j < |shown[i]| ==> shown[i][j]
  }

  /** The positions of the shown cells. */
  function ShownCells(shown: seq<seq<bool>>): set<(int, int)> {
    set i, j | 0 <= i < |shown| && 0 <= j < |shown[i]| && shown[i][j] :: (i, j)
  }

  /** The number of shown cells. */
  function CountShown(shown: seq<seq<bool>>): nat {
    |ShownCells(shown)|
  }

  /** Every shown cell has a different shown cell with the same label: the shown
    * cells are made of matched pairs. */
  ghost predicate Partnered(board: seq<seq<int>>, shown: seq<seq<bool>>)
    requires Grid(board, shown)
  {
    forall i, j {:trigger HasPartner(board, shown, i, j)} ::
      0 <= i < |board| && 0 <= j < |board| && shown[i][j] ==> HasPartner(board, shown, i, j)
  }

  /** Some other shown cell carries the same label as cell `(i, j)`. */
  ghost predicate HasPartner(board: seq<seq<int>>, shown: seq<seq<bool>>, i: int, j: int)
    requires Grid(board, shown) && 0 <= i < |board| && 0 <= j < |board|
  {
    exists k, l :: 0 <= k < |board| && 0 <= l < |board| && (k != i || l != j) && shown[k][l] && board[k][l] == board[i][j]
  }

  /** The invariant every reachable state keeps. */
  ghost predicate Inv(st: GameState) {
    WellFormed(st)
    && PairBoard(st.board)
    && Partnered(st.board, st.shown)
    && 2 * st.score == CountShown(st.shown)
    && st.moves >= 0
    && (st.gameOver ==> AllShown(st.shown))
  }

  // ---------------------------------------------------------------------------
  // __init__ and reset (environment/game.py:11-16, 123-134)

  /** `GameMemory(size)`: a fresh board, nothing shown, counters at zero; or the
    * `ValueError` of `create_board`. */
  function InitSpec(size: int, draws: seq<nat>): (r: Result<GameState, Exception>)
    requires ValidDraws(draws, size * size)
    ensures r.Ok? <==> CreateBoardSpec(size, draws).Ok?
    ensures r.Ok? ==> r.value.size == size && r.value.score == 0 && r.value.moves == 0 && !r.value.gameOver
  {
    match CreateBoardSpec(size, draws)
    case Err(e) => Err(e)
    case Ok((board, shown)) => Ok(GameState(size, board, shown, 0, 0, false))
  }

  /** The size `reset(newSize)` builds: the given one, or the current one for `None`. */
  function ResetSize(st: GameState, newSize: Option<int>): int {
    if newSize.Some? then newSize.value else st.size
  }

  /** `reset(newSize)`: `size` is assigned before `create_board` runs, so when it
    * raises the new size stays while everything else keeps its old value. */
  function ResetSpec(st: GameState, newSize: Option<int>, draws: seq<nat>): (r: (GameState, Result<(), Exception>))
    requires ValidDraws(draws, ResetSize(st, newSize) * ResetSize(st, newSize))
    ensures r.0.size == ResetSize(st, newSize)
    ensures r.1.Err? ==> r.0 == st.(size := ResetSize(st, newSize))
  {
    var size := ResetSize(st, newSize);
    match CreateBoardSpec(size, draws)
    case Err(e) => (st.(size := size), Err(e))
    case Ok((board, shown)) => (GameState(size, board, shown, 0, 0, false), Ok(()))
  }

  // ---------------------------------------------------------------------------
  // move (environment/game.py:29-67)

  datatype Coords = Coords(r1: int, c1: int, r2: int, c2: int)

  /** `r1, c1, r2, c2 = map(int, action.split())`, or `None` where `move` returns
    * `False` for a wrong token count or a `ValueError` from `int()`. */
  function ParseMove(action: string): (r: Option<Coords>)
    ensures r.Some? ==> |Split(action)| == 4
  {
    var parts := Split(action);
    if |parts| != 4 then None
    else
      match (ParseInt(parts[0]), ParseInt(parts[1]), ParseInt(parts[2]), ParseInt(parts[3]))
      case (Some(r1), Some(c1), Some(r2), Some(c2)) => Some(Coords(r1, c1, r2, c2))
      case _ => None
  }

  /** The action text for four coordinates. */
  function FormatMove(m: Coords): string {
    Join([IntToString(m.r1), IntToString(m.c1), IntToString(m.r2), IntToString(m.c2)], " ")
  }

  /** All four coordinates pass the `[0, size)` check of line 42-48. */
  predicate InSize(st: GameState, m: Coords) {
    0 <= m.r1 < st.size && 0 <= m.c1 < st.size && 0 <= m.r2 < st.size && 0 <= m.c2 < st.size
  }

  /** A move that `move` carries out: in range of the grid, two different hidden cells. */
  predicate Applicable(st: GameState, m: Coords)
    requires WellFormed(st)
  {
    InSize(st, m) && InGrid(st, m.r1, m.c1) && InGrid(st, m.r2, m.c2)
    && !st.shown[m.r1][m.c1] && !st.shown[m.r2][m.c2]
    && (m.r1 != m.r2 || m.c1 != m.c2)
  }

  function SetCell(g: seq<seq<bool>>, i: int, j: int, v: bool): (r: seq<seq<bool>>)
    requires 0 <= i < |g| && 0 <= j < |g[i]|
  {
    g[i := g[i][j := v]]
  }

  /** Showing two hidden cells and hiding them again gives back the mask. */
  lemma SetCellUndo(g: seq<seq<bool>>, i: nat, j: nat, k: nat, l: nat)
    requires i < |g| && j < |g[i]| && k < |g| && l < |g[k]| && !g[i][j] && !g[k][l]
    ensures var g1 := SetCell(SetCell(g, i, j, true), k, l, true);
            SetCell(SetCell(g1, i, j, false), k, l, false) == g
  {
    var g1 := SetCell(SetCell(g, i, j, true), k, l, true);
    var g2 := SetCell(SetCell(g1, i, j, false), k, l, false);
    assert |g2| == |g|;
    forall r | 0 <= r < |g| ensures g2[r] == g[r] {
      if r == i || r == k {
        assert |g2[r]| == |g[r]|;
        forall c | 0 <= c < |g[r]| ensures g2[r][c] == g[r][c] {
        }
      }
    }
  }

  /** `move(action)`: the new state and what the call returns, `True`, `False` or
    * the `IndexError` numpy raises when `size` exceeds the grid (line 50). */
  function MoveSpec(st: GameState, action: string): (r: (GameState, Result<bool, Exception>))
    requires WellFormed(st)
    ensures WellFormed(r.0) && r.0.board == st.board && r.0.size == st.size
  {
    if st.gameOver then (st, Ok(false))
    else
      match ParseMove(action)
      case None => (st, Ok(false))
      case Some(m) =>
        if !InSize(st, m) then (st, Ok(false))
        else if !InGrid(st, m.r1, m.c1) then (st, Err(IndexError))
        else if st.shown[m.r1][m.c1] then (st, Ok(false))
        else if !InGrid(st, m.r2, m.c2) then (st, Err(IndexError))
        else if st.shown[m.r2][m.c2] || (m.r1 == m.r2 && m.c1 == m.c2) then (st, Ok(false))
        else (ShowPair(st, m), Ok(true))
  }

  /** Lines 54-66 for a move that `move` accepts: both cells are shown; on equal
    * labels they stay shown and the score grows, otherwise they are hidden
    * again; the move is counted and the game-over flag recomputed. */
  function ShowPair(st: GameState, m: Coords): (st': GameState)
    requires WellFormed(st) && Applicable(st, m)
    ensures WellFormed(st') && st'.board == st.board && st'.size == st.size
  {
    var matched := st.board[m.r1][m.c1] == st.board[m.r2][m.c2];
    var shown := if matched then SetCell(SetCell(st.shown, m.r1, m.c1, true), m.r2, m.c2, true) else st.shown;
    st.(shown := shown, score := if matched then st.score + 1 else st.score,
        moves := st.moves + 1, gameOver := AllShown(shown))
  }

  // ---------------------------------------------------------------------------
  // get_board_ascii (environment/game.py:73-98)

  const GameOverLine := "GAME OVER! All tiles matched."

  /** `"+" + "-----+" * size`. */
  function Border(size: int): (b: string)
    ensures |b| >= 1 && b[0] == '+'
  {
    "+" + Repeat("-----+", size)
  }

  /** One cell: `[vv]|` when shown, ` vv |` when hidden, `vv` the label in width 2. */
  function CellText(v: int, isShown: bool): string {
    if isShown then "[" + FormatWidth(v, 2) + "]|" else " " + FormatWidth(v, 2) + " |"
  }

  /** The length of `range(n)`. */
  function RangeLength(n: int): nat {
    if n < 0 then 0 else n
  }

  /** The texts of the cells of row `i`, one per column of the board. */
  function RowCells(st: GameState, i: nat): (cells: seq<string>)
    requires WellFormed(st) && i < |st.board|
    ensures |cells| == |st.board|
  {
    seq(|st.board|, c requires 0 <= c < |st.board| => CellText(st.board[i][c], st.shown[i][c]))
  }

  /** Row `i` of the grid: `|` followed by one cell per column of `range(size)`. */
  function RowText(st: GameState, i: nat): string
    requires WellFormed(st) && i < |st.board| && st.size <= |st.board|
  {
    "|" + Concat(RowCells(st, i)[..RangeLength(st.size)])
  }

  /** The rows of the grid, one per row of `range(size)`. */
  function RowTexts(st: GameState): (rows: seq<string>)
    requires WellFormed(st) && st.size <= |st.board|
    ensures |rows| == RangeLength(st.size)
  {
    seq(RangeLength(st.size), i requires 0 <= i < RangeLength(st.size) => RowText(st, i))
  }

  /** Each row followed by a border line. */
  function Interleave(rows: seq<string>, border: string): (lines: seq<string>)
    ensures |lines| == 2 * |rows|
  {
    seq(2 * |rows|, k requires 0 <= k < 2 * |rows| => if k % 2 == 0 then rows[k / 2] else border)
  }

  function StatusLine(st: GameState): string {
    "\nScore: " + IntToString(st.score) + "  Moves: " + IntToString(st.moves)
  }

  function RenderLines(st: GameState): seq<string>
    requires WellFormed(st) && st.size <= |st.board|
  {
    [Border(st.size)] + Interleave(RowTexts(st), Border(st.size)) + [StatusLine(st)]
    + (if st.gameOver then [GameOverLine] else [])
  }

  /** `get_board_ascii()`: the lines joined by newlines, or the `IndexError` numpy
    * raises at line 83 when `size` exceeds the grid. */
  function Render(st: GameState): Result<string, Exception>
    requires WellFormed(st)
  {
    if st.size > |st.board| then Err(IndexError) else Ok(Join(RenderLines(st), "\n"))
  }

  // ---------------------------------------------------------------------------
  // Lemmas: parsing

  lemma IntToStringNoSpace(n: int)
    ensures NoSpace(IntToString(n))
  {
    var s := IntToString(n);
    forall i | 0 <= i < |s| ensures !IsSpace(s[i]) {
      if n < 0 && i > 0 {
        assert s[i] == NatToString(-n)[i - 1];
      }
    }
  }

  /** The action text for four coordinates parses back to them. */
  lemma ParseFormatMove(m: Coords)
    ensures ParseMove(FormatMove(m)) == Some(m)
  {
    var parts := [IntToString(m.r1), IntToString(m.c1), IntToString(m.r2), IntToString(m.c2)];
    IntToStringNoSpace(m.r1);
    IntToStringNoSpace(m.c1);
    IntToStringNoSpace(m.r2);
    IntToStringNoSpace(m.c2);
    SplitOfJoin(parts);
    ParseIntOfIntToString(m.r1);
    ParseIntOfIntToString(m.c1);
    ParseIntOfIntToString(m.r2);
    ParseIntOfIntToString(m.c2);
  }

  // ---------------------------------------------------------------------------
  // Lemmas: move

  /** Once the game is over, `move` returns `False` and changes nothing (line 31-32). */
  lemma MoveAfterGameOver(st: GameState, action: string)
    requires WellFormed(st) && st.gameOver
    ensures MoveSpec(st, action) == (st, Ok(false))
  {
  }

  /** A call that does not return `True` changes no field; it returns `False`
    * exactly on a finished game, a malformed action, a coordinate outside
    * `[0, size)`, a shown cell or the same cell twice, and raises only when a
    * coordinate inside `[0, size)` lies outside the grid. */
  lemma MoveRejected(st: GameState, action: string)
    requires WellFormed(st)
    ensures MoveSpec(st, action).1 != Ok(true) ==> MoveSpec(st, action).0 == st
    ensures MoveSpec(st, action).1 == Ok(false) <==>
              st.gameOver || ParseMove(action).None?
              || (var m := ParseMove(action).value;
                  !InSize(st, m)
                  || (InGrid(st, m.r1, m.c1) && st.shown[m.r1][m.c1])
                  || (InGrid(st, m.r1, m.c1) && InGrid(st, m.r2, m.c2)
                      && (st.shown[m.r2][m.c2] || (m.r1 == m.r2 && m.c1 == m.c2))))
    ensures MoveSpec(st, action).1.Err? ==> st.size > |st.board|
    ensures MoveSpec(st, action).1 == Ok(true) <==>
              !st.gameOver && ParseMove(action).Some? && Applicable(st, ParseMove(action).value)
  {
  }

  /** A valid move on two equal labels shows both cells, scores one point, counts
    * one move, leaves every other cell alone and returns `True` (line 54-59, 65-67). */
  lemma MoveMatch(st: GameState, action: string)
    requires WellFormed(st) && !st.gameOver && ParseMove(action).Some?
    requires var m := ParseMove(action).value;
             Applicable(st, m) && st.board[m.r1][m.c1] == st.board[m.r2][m.c2]
    ensures var (st', res) := MoveSpec(st, action);
            var m := ParseMove(action).value;
            res == Ok(true) && st'.board == st.board && st'.size == st.size
            && st'.score == st.score + 1 && st'.moves == st.moves + 1
            && st'.shown[m.r1][m.c1] && st'.shown[m.r2][m.c2]
            && (forall i, j | InGrid(st, i, j) && (i != m.r1 || j != m.c1) && (i != m.r2 || j != m.c2) ::
                  st'.shown[i][j] == st.shown[i][j])
            && CountShown(st'.shown) == CountShown(st.shown) + 2
  {
    var m := ParseMove(action).value;
    var once := SetCell(st.shown, m.r1, m.c1, true);
    CountSetCell(st.shown, m.r1, m.c1);
    CountSetCell(once, m.r2, m.c2);
  }

  /** A valid move on two different labels shows them and hides them again, so
    * the mask ends as it was; the score stays, one move is counted, the game is
    * not over and the call returns `True` (line 54-55, 61-67). */
  lemma MoveMismatch(st: GameState, action: string)
    requires WellFormed(st) && !st.gameOver && ParseMove(action).Some?
    requires var m := ParseMove(action).value;
             Applicable(st, m) && st.board[m.r1][m.c1] != st.board[m.r2][m.c2]
    ensures var (st', res) := MoveSpec(st, action);
            res == Ok(true) && st' == st.(moves := st.moves + 1)
  {
    var m := ParseMove(action).value;
    assert !AllShown(st.shown) by {
      assert !st.shown[m.r1][m.c1];
    }
  }

  /** Showing one hidden cell adds one to the count of shown cells. */
  lemma CountSetCell(g: seq<seq<bool>>, i: nat, j: nat)
    requires i < |g| && j < |g[i]| && !g[i][j]
    ensures CountShown(SetCell(g, i, j, true)) == CountShown(g) + 1
  {
    var before, after := ShownCells(g), ShownCells(SetCell(g, i, j, true));
    assert after == before + {(i, j)};
    assert (i, j) !in before;
  }

  /** A mask that shows nothing counts no shown cell. */
  lemma CountAllFalse(n: nat)
    ensures CountShown(AllFalse(n)) == 0
  {
    assert ShownCells(AllFalse(n)) == {};
  }

  /** Showing a matched pair keeps the shown cells made of matched pairs. */
  lemma PartneredAfterMatch(st: GameState, m: Coords)
    requires WellFormed(st) && Partnered(st.board, st.shown) && Applicable(st, m)
    requires st.board[m.r1][m.c1] == st.board[m.r2][m.c2]
    ensures var shown := SetCell(SetCell(st.shown, m.r1, m.c1, true), m.r2, m.c2, true);
            Grid(st.board, shown) && Partnered(st.board, shown)
  {
    var board, shown := st.board, SetCell(SetCell(st.shown, m.r1, m.c1, true), m.r2, m.c2, true);
    assert Grid(board, shown);
    forall i, j | 0 <= i < |board| && 0 <= j < |board| && shown[i][j]
      ensures HasPartner(board, shown, i, j)
    {
      if i == m.r1 && j == m.c1 {
        assert shown[m.r2][m.c2];
      } else if i == m.r2 && j == m.c2 {
        assert shown[m.r1][m.c1];
      } else {
        assert st.shown[i][j];
        assert HasPartner(board, st.shown, i, j);
        var k, l :| 0 <= k < |board| && 0 <= l < |board| && (k != i || l != j) && st.shown[k][l] && board[k][l] == board[i][j];
        assert shown[k][l];
      }
    }
  }

  /** `move` keeps the invariant: the board never changes, shown cells stay made
    * of matched pairs, twice the score is the number of shown cells, and after a
    * move that returns `True` the game is over exactly when every cell is shown. */
  lemma MovePreservesInv(st: GameState, action: string)
    requires Inv(st)
    ensures var (st', res) := MoveSpec(st, action);
            Inv(st') && st'.board == st.board && st'.size == st.size
            && (res == Ok(true) ==> st'.gameOver == AllShown(st'.shown))
  {
    var (st', res) := MoveSpec(st, action);
    if res == Ok(true) {
      var m := ParseMove(action).value;
      if st.board[m.r1][m.c1] == st.board[m.r2][m.c2] {
        MoveMatch(st, action);
        PartneredAfterMatch(st, m);
      } else {
        MoveMismatch(st, action);
      }
    } else {
      MoveRejected(st, action);
    }
  }

  /** `check_game_over` keeps the invariant on any state that has it, and sets
    * the flag exactly when every cell is shown. */
  lemma CheckGameOverInv(st: GameState)
    requires Inv(st)
    ensures var st' := st.(gameOver := AllShown(st.shown));
            Inv(st') && st'.board == st.board && st'.shown == st.shown
            && (st'.gameOver <==> AllShown(st'.shown))
  {
  }

  // ---------------------------------------------------------------------------
  // Lemmas: __init__ and reset

  lemma FreshStateInv(size: int, board: seq<seq<int>>)
    requires size >= 0 && IsSquare(board, size) && PairBoard(board)
    ensures Inv(GameState(size, board, AllFalse(size), 0, 0, false))
  {
    CountAllFalse(size);
  }

  /** `GameMemory(size)` raises exactly for an odd or negative size; otherwise it
    * starts a game of that size on a pair board, with nothing shown, both
    * counters at zero, not over, and the invariant holding. */
  lemma InitOutcome(size: int, draws: seq<nat>)
    requires ValidDraws(draws, size * size)
    ensures InitSpec(size, draws).Ok? <==> size >= 0 && size % 2 == 0
    ensures InitSpec(size, draws).Ok? ==>
              var st := InitSpec(size, draws).value;
              Inv(st) && st.size == size && IsSquare(st.board, size) && CountShown(st.shown) == 0
              && st.score == 0 && st.moves == 0 && !st.gameOver
  {
    CreateBoardPairs(size, draws);
    if size >= 0 && size % 2 == 0 {
      var (board, _) := CreateBoardSpec(size, draws).value;
      FreshStateInv(size, board);
    }
  }

  /** `reset(newSize)` on an odd or negative size raises `ValueError` after
    * overwriting `size`, leaving board, mask and counters as they were; on any
    * other size it starts a fresh game of that size. Either way the invariant
    * holds afterwards. */
  lemma ResetOutcome(st: GameState, newSize: Option<int>, draws: seq<nat>)
    requires Inv(st)
    requires ValidDraws(draws, ResetSize(st, newSize) * ResetSize(st, newSize))
    ensures var (st', res) := ResetSpec(st, newSize, draws);
            var size := ResetSize(st, newSize);
            Inv(st') && st'.size == size
            && (res.Err? <==> size < 0 || size % 2 != 0)
            && (res.Err? ==> res.error == ValueError && st' == st.(size := size))
            && (res.Ok? ==> IsSquare(st'.board, size) && CountShown(st'.shown) == 0
                            && st'.score == 0 && st'.moves == 0 && !st'.gameOver)
  {
    var size := ResetSize(st, newSize);
    CreateBoardPairs(size, draws);
    if size >= 0 && size % 2 == 0 {
      var (board, _) := CreateBoardSpec(size, draws).value;
      FreshStateInv(size, board);
      CountAllFalse(size);
    }
  }

  /** How `ResetSpec` is assembled from the outcome of `create_board`. */
  lemma ResetFrom(st: GameState, newSize: Option<int>, draws: seq<nat>, created: Result<(seq<seq<int>>, seq<seq<bool>>), Exception>)
    requires ValidDraws(draws, ResetSize(st, newSize) * ResetSize(st, newSize))
    requires created == CreateBoardSpec(ResetSize(st, newSize), draws)
    ensures created.Err? ==> ResetSpec(st, newSize, draws) == (st.(size := ResetSize(st, newSize)), Err(created.error))
    ensures created.Ok? ==>
              ResetSpec(st, newSize, draws) == (GameState(ResetSize(st, newSize), created.value.0, created.value.1, 0, 0, false), Ok(()))
  {
  }

  // ---------------------------------------------------------------------------
  // Lemmas: rendering

  /** The label texts of the source's boards are two characters wide. */
  lemma FormatWidthTwo(v: int)
    requires -9 <= v <= 99
    ensures |FormatWidth(v, 2)| == 2
  {
    FormatWidthLayout(v, 2);
    if 10 <= v {
      assert NatToString(v) == NatToString(v / 10) + [('0' as int + v % 10) as char];
    } else if v < 0 {
      assert IntToString(v) == "-" + NatToString(-v);
    }
  }

  lemma CellTextWidth(v: int, isShown: bool)
    requires -9 <= v <= 99
    ensures |CellText(v, isShown)| == 5
  {
    FormatWidthTwo(v);
  }

  /** With labels of at most two characters, every cell is five characters wide. */
  lemma CellsWidth(st: GameState, i: nat, n: nat)
    requires WellFormed(st) && i < |st.board| && n <= |st.board|
    requires forall c :: 0 <= c < n ==> -9 <= st.board[i][c] <= 99
    ensures forall c :: 0 <= c < n ==> |RowCells(st, i)[..n][c]| == 5
  {
    var cells := RowCells(st, i)[..n];
    forall c | 0 <= c < n ensures |cells[c]| == 5 {
      CellTextWidth(st.board[i][c], st.shown[i][c]);
    }
  }

  /** With two-character labels, characters `1 + 5 * j` to `1 + 5 * j + 5` of
    * row `i` are cell `j`: `[vv]|` when shown and ` vv |` when hidden, the
    * label printed either way. */
  lemma RowLayout(st: GameState, i: nat, j: nat)
    requires WellFormed(st) && i < |st.board| && 0 <= j < st.size <= |st.board|
    requires forall c :: 0 <= c < st.size ==> -9 <= st.board[i][c] <= 99
    ensures |RowText(st, i)| == 1 + 5 * st.size
    ensures RowText(st, i)[1 + 5 * j..1 + 5 * j + 5] == CellText(st.board[i][j], st.shown[i][j])
  {
    var cells := RowCells(st, i)[..st.size];
    var row := Concat(cells);
    assert |row| == 5 * st.size && row[5 * j..5 * j + 5] == cells[j] by {
      CellsWidth(st, i, st.size);
      ConcatLength(cells, 5);
      ConcatAt(cells, 5, j);
    }
    SliceAfter("|", row, 5 * j, 5 * j + 5);
  }

  lemma SliceAfter(p: string, s: string, a: nat, b: nat)
    requires a <= b <= |s|
    ensures (p + s)[|p| + a..|p| + b] == s[a..b]
  {
  }

  /** The border is `1 + 6 * size` characters long, while a row of two-character
    * labels is only `1 + 5 * size`: the cells are one character narrower than
    * the `-----+` segments above them. */
  lemma RowWidth(st: GameState, i: nat)
    requires WellFormed(st) && 0 <= st.size <= |st.board| && i < |st.board|
    requires forall j :: 0 <= j < st.size ==> -9 <= st.board[i][j] <= 99
    ensures |Border(st.size)| == 1 + 6 * st.size
    ensures |RowText(st, i)| == 1 + 5 * st.size
  {
    RepeatLength("-----+", st.size);
    CellsWidth(st, i, st.size);
    ConcatLength(RowCells(st, i)[..st.size], 5);
  }

  /** The inner loop of `get_board_ascii`: appending cell `j` to the first `j`
    * cells of row `i` gives the first `j + 1`. */
  lemma CellsStep(st: GameState, i: nat, j: nat, row: string)
    requires WellFormed(st) && i < |st.board| && j < |st.board|
    requires row == "|" + Concat(RowCells(st, i)[..j])
    ensures row + CellText(st.board[i][j], st.shown[i][j]) == "|" + Concat(RowCells(st, i)[..j + 1])
  {
    ConcatSnoc("|", RowCells(st, i), j, row);
  }

  lemma InterleaveAppend(rows: seq<string>, row: string, border: string)
    ensures Interleave(rows + [row], border) == Interleave(rows, border) + [row, border]
  {
    var lhs, rhs := Interleave(rows + [row], border), Interleave(rows, border) + [row, border];
    forall k | 0 <= k < |lhs| ensures lhs[k] == rhs[k] {
      if k < 2 * |rows| {
        assert (rows + [row])[k / 2] == rows[k / 2];
      }
    }
  }

  /** Taking one more row appends it and a border. */
  lemma InterleaveStep(rows: seq<string>, i: nat, border: string)
    requires i < |rows|
    ensures Interleave(rows[..i + 1], border) == Interleave(rows[..i], border) + [rows[i], border]
  {
    assert rows[..i + 1] == rows[..i] + [rows[i]];
    InterleaveAppend(rows[..i], rows[i], border);
  }

  /** The outer loop of `get_board_ascii`: after the top border and `i` rows,
    * appending row `i` and a border gives the first `i + 1` rows. */
  lemma LinesStep(st: GameState, i: nat, lines: seq<string>, row: string)
    requires WellFormed(st) && i < st.size <= |st.board|
    requires i == 0 ==> lines == [Border(st.size)]
    requires i > 0 ==> lines == [Border(st.size)] + Interleave(RowTexts(st)[..i], Border(st.size))
    requires row == RowText(st, i)
    ensures lines + [row, Border(st.size)] == [Border(st.size)] + Interleave(RowTexts(st)[..i + 1], Border(st.size))
  {
    InterleaveStep(RowTexts(st), i, Border(st.size));
    if i == 0 {
      assert Interleave(RowTexts(st)[..0], Border(st.size)) == [];
    }
  }

  /** In a border, the interleaved rows and a tail, row `i` is line `2 * i + 1`
    * and a border follows it. */
  lemma InterleavedAt(border: string, rows: seq<string>, tail: seq<string>, i: nat)
    requires i < |rows|
    ensures 2 * i + 2 < |[border] + Interleave(rows, border) + tail|
    ensures ([border] + Interleave(rows, border) + tail)[2 * i + 1] == rows[i]
    ensures ([border] + Interleave(rows, border) + tail)[2 * i + 2] == border
  {
    var lines := [border] + Interleave(rows, border) + tail;
    assert lines[2 * i + 1] == Interleave(rows, border)[2 * i];
    assert lines[2 * i + 2] == Interleave(rows, border)[2 * i + 1];
  }

  /** Line `2 * i + 1` of the rendering is row `i`, and the line after it a border. */
  lemma RenderRowAt(st: GameState, i: nat)
    requires WellFormed(st) && i < st.size <= |st.board|
    ensures 2 * i + 2 < |RenderLines(st)|
    ensures RenderLines(st)[2 * i + 1] == RowText(st, i)
    ensures RenderLines(st)[2 * i + 2] == Border(st.size)
  {
    var tail := [StatusLine(st)] + (if st.gameOver then [GameOverLine] else []);
    InterleavedAt(Border(st.size), RowTexts(st), tail, i);
  }

  lemma RenderShape(st: GameState)
    requires WellFormed(st) && st.size <= |st.board|
    ensures var lines, n := RenderLines(st), RangeLength(st.size);
            |lines| == 2 * n + 2 + (if st.gameOver then 1 else 0)
            && lines[0] == Border(st.size)
            && (forall i :: 0 <= i < n ==> lines[2 * i + 1] == RowText(st, i) && lines[2 * i + 2] == Border(st.size))
            && lines[2 * n + 1] == StatusLine(st)
            && (st.gameOver ==> lines[2 * n + 2] == GameOverLine)
  {
    var n := RangeLength(st.size);
    var lines := RenderLines(st);
    assert lines[2 * n + 1] == StatusLine(st) && (st.gameOver ==> lines[2 * n + 2] == GameOverLine) by {
      var rows := Interleave(RowTexts(st), Border(st.size));
      var tail := [StatusLine(st)] + (if st.gameOver then [GameOverLine] else []);
      assert lines == [Border(st.size)] + rows + tail;
      assert lines[2 * n + 1] == tail[0];
    }
    forall i | 0 <= i < n
      ensures lines[2 * i + 1] == RowText(st, i) && lines[2 * i + 2] == Border(st.size)
    {
      RenderRowAt(st, i);
    }
  }

  /** The rendered text starts with the top border. */
  lemma RenderStartsWithBorder(st: GameState)
    requires WellFormed(st) && st.size <= |st.board|
    ensures var text, b := Render(st).value, Border(st.size);
            |text| >= |b| && text[..|b|] == b
  {
    JoinFirst(RenderLines(st), "\n");
  }

  /** The rendered text ends with the game-over notice exactly when the game is
    * over; otherwise it ends with the last digit of the move count. */
  lemma RenderEndsWithNotice(st: GameState)
    requires WellFormed(st) && st.size <= |st.board|
    ensures var text := Render(st).value;
            (|text| >= |GameOverLine| && text[|text| - |GameOverLine|..] == GameOverLine) <==> st.gameOver
  {
    var lines := RenderLines(st);
    var text := Join(lines, "\n");
    var last := lines[|lines| - 1];
    assert |text| >= |last| && text[|text| - |last|..] == last by {
      JoinLast(lines, "\n");
    }
    if !st.gameOver {
      assert last == StatusLine(st);
      var m := IntToString(st.moves);
      IntToStringEndsWithDigit(st.moves);
      assert last[|last| - 1] == m[|m| - 1];
      assert text[|text| - 1] == last[|last| - 1];
      assert GameOverLine[|GameOverLine| - 1] == '.';
    }
  }
}
