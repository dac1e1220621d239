/** The `GameMemory` class of environment/game.py: the board, the `shown` mask
  * that `move` writes in place, and the counters. Each method is proved to
  * change the object as the matching function of GameModel says. */
module Game {
  import opened Wrappers
  import opened PyText
  import opened Board
  import opened GameModel

  /** The default `size` of `GameMemory.__init__` (line 11). */
  const InitDefaultSize := 6

  /** The default `size` of `GameMemory.reset` (line 123); being an integer, it
    * is never `None`, so a call without arguments always resizes to 4. */
  const ResetDefaultSize: Option<int> := Some(4)

  /** The dictionary `get_state` returns. */
  datatype StateDict = StateDict(board: seq<seq<int>>, shown: seq<seq<bool>>, score: int, moves: int, gameOver: bool)

  /** `grid.tolist()` for a boolean numpy grid. */
  function Rows(a: array2<bool>): (rows: seq<seq<bool>>)
    reads a
    ensures |rows| == a.Length0
    ensures forall i, j :: 0 <= i < a.Length0 && 0 <= j < a.Length1 ==> |rows[i]| == a.Length1 && rows[i][j] == a[i, j]
  {
    seq(a.Length0, i requires 0 <= i < a.Length0 reads a =>
      seq(a.Length1, j requires 0 <= j < a.Length1 reads a => a[i, j]))
  }

  class GameMemory {
    var size: int
    var board: seq<seq<int>>
    var shown: array2<bool>
    var score: int
    var gameOver: bool
    var movesMade: int

    /** All fields, as a value. */
    ghost function State(): GameState
      reads this, shown
    {
      GameState(size, board, Rows(shown), score, movesMade, gameOver)
    }

    /** The mask array has the board's shape. */
    ghost predicate Shaped()
      reads this, shown
    {
      shown.Length0 == |board| && shown.Length1 == |board| && WellFormed(State())
    }

    /** The class invariant: the shape, and `Inv` on the fields. */
    ghost predicate Valid()
      reads this, shown
    {
      Shaped() && Inv(State())
    }

    /** `create_board` for a given size: the board and a fresh mask, or the
      * `ValueError` it raises. */
    static method CreateBoard(size: int, draws: seq<nat>) returns (res: Result<(seq<seq<int>>, array2<bool>), Exception>)
      requires ValidDraws(draws, size * size)
      ensures res.Err? ==> CreateBoardSpec(size, draws) == Err(res.error)
      ensures res.Ok? ==> var (b, s) := res.value;
                          fresh(s) && s.Length0 == size && s.Length1 == size
                          && CreateBoardSpec(size, draws) == Ok((b, Rows(s)))
    {
      var total := size * size;
      if total % 2 != 0 {
        return Err(ValueError);
      }
      var nums := Pairs(total / 2);
      nums := Shuffle(nums, draws);
      if size < 0 {
        return Err(ValueError);
      }
      var b := Reshape(nums, size);
      var s := new bool[size, size]((i, j) => false);
      assert Rows(s) == AllFalse(size) by {
        forall i | 0 <= i < size ensures Rows(s)[i] == AllFalse(size)[i] {
        }
      }
      return Ok((b, s));
    }

    /** `GameMemory(size)` for a size `create_board` accepts. */
    constructor (size: int, draws: seq<nat>)
      requires size >= 0 && size % 2 == 0 && ValidDraws(draws, size * size)
      ensures Valid() && fresh(shown)
      ensures InitSpec(size, draws) == Ok(State())
    {
      CreateBoardPairs(size, draws);
      var res := CreateBoard(size, draws);
      this.size := size;
      board := res.value.0;
      shown := res.value.1;
      score := 0;
      gameOver := false;
      movesMade := 0;
      new;
      InitOutcome(size, draws);
    }

    /** `check_game_over`: the game is over when every cell is shown. */
    method CheckGameOver()
      modifies this`gameOver
      ensures gameOver == AllShown(Rows(shown))
    {
      gameOver := forall i, j | 0 <= i < shown.Length0 && 0 <= j < shown.Length1 :: shown[i, j];
    }

    /** `self.shown[m.r1, m.c1] = v` and then `self.shown[m.r2, m.c2] = v`: two
      * cells of the mask, written in place. */
    method SetPair(m: Coords, v: bool)
      requires 0 <= m.r1 < shown.Length0 && 0 <= m.c1 < shown.Length1
      requires 0 <= m.r2 < shown.Length0 && 0 <= m.c2 < shown.Length1
      modifies shown
      ensures Rows(shown) == SetCell(SetCell(old(Rows(shown)), m.r1, m.c1, v), m.r2, m.c2, v)
    {
      ghost var before := Rows(shown);
      shown[m.r1, m.c1] := v;
      shown[m.r2, m.c2] := v;
      ghost var after := SetCell(SetCell(before, m.r1, m.c1, v), m.r2, m.c2, v);
      assert Rows(shown) == after by {
        forall k | 0 <= k < shown.Length0 ensures Rows(shown)[k] == after[k] {
        }
      }
    }

    /** `move(action)`. */
    method Move(action: string) returns (r: Result<bool, Exception>)
      requires Valid()
      modifies this, shown
      ensures shown == old(shown)
      ensures (State(), r) == MoveSpec(old(State()), action)
      ensures Valid()
    {
      ghost var before := State();
      MovePreservesInv(before, action);
      if gameOver {
        return Ok(false);
      }
      var parsed := ParseMove(action);
      if parsed.None? {
        return Ok(false);
      }
      var Coords(r1, c1, r2, c2) := parsed.value;
      if !(0 <= r1 < size && 0 <= c1 < size && 0 <= r2 < size && 0 <= c2 < size) {
        return Ok(false);
      }
      // numpy's bounds checks on `shown[r1, c1]` and `shown[r2, c2]`
      if !(r1 < shown.Length0 && c1 < shown.Length1) {
        return Err(IndexError);
      }
      if shown[r1, c1] {
        return Ok(false);
      }
      if !(r2 < shown.Length0 && c2 < shown.Length1) {
        return Err(IndexError);
      }
      if shown[r2, c2] || (r1 == r2 && c1 == c2) {
        return Ok(false);
      }

      ShowPair(Coords(r1, c1, r2, c2));
      return Ok(true);
    }

    /** Lines 54-67 of `move`, once the coordinates are accepted: both cells are
      * set in place, and set back on a mismatch. */
    method ShowPair(m: Coords)
      requires Shaped() && Applicable(State(), m)
      modifies this`score, this`movesMade, this`gameOver, shown
      ensures State() == GameModel.ShowPair(old(State()), m)
    {
      ghost var before := State();
      SetPair(m, true);
      if board[m.r1][m.c1] == board[m.r2][m.c2] {
        score := score + 1;
      } else {
        SetPair(m, false);
        SetCellUndo(before.shown, m.r1, m.c1, m.r2, m.c2);
      }
      movesMade := movesMade + 1;
      CheckGameOver();
    }

    /** The inner loop of `get_board_ascii()`: row `i` of the grid, or the
      * `IndexError` numpy raises on `board[i, j]` when the size exceeds the board. */
    method FormatRow(i: int) returns (r: Result<string, Exception>)
      requires Shaped() && 0 <= i < size
      ensures r == if size > |board| then Err(IndexError) else Ok(RowText(State(), i))
    {
      ghost var st := State();
      var rowStr := "|";
      var j := 0;
      while j < size
        invariant 0 <= j <= size && j <= |board|
        invariant j > 0 ==> i < |board|
        invariant i < |board| ==> rowStr == "|" + Concat(RowCells(st, i)[..j])
      {
        // numpy's bounds check on `board[i, j]`
        if !(i < |board| && j < |board|) {
          return Err(IndexError);
        }
        // `f"[{val:2}]|"` when shown, `f" {val:2} |"` when hidden
        var cell := CellText(board[i][j], shown[i, j]);
        assert cell == CellText(st.board[i][j], st.shown[i][j]) by {
          assert st.shown[i][j] == shown[i, j];
        }
        CellsStep(st, i, j, rowStr);
        rowStr := rowStr + cell;
        j := j + 1;
      }
      return Ok(rowStr);
    }

    /** `get_board_ascii()`. */
    method GetBoardAscii() returns (r: Result<string, Exception>)
      requires Shaped()
      ensures r == Render(State())
    {
      ghost var st := State();
      var lines := [Border(size)];
      var i := 0;
      while i < size
        invariant 0 <= i && (i == 0 || i <= size <= |board|)
        invariant i == 0 ==> lines == [Border(size)]
        invariant i > 0 ==> lines == [Border(size)] + Interleave(RowTexts(st)[..i], Border(size))
      {
        var row := FormatRow(i);
        if row.Err? {
          return Err(row.error);
        }
        LinesStep(st, i, lines, row.value);
        lines := lines + [row.value, Border(size)];
        i := i + 1;
      }
      assert size <= |board| && i == RangeLength(size);
      assert RowTexts(st)[..i] == RowTexts(st);
      lines := lines + ["\nScore: " + IntToString(score) + "  Moves: " + IntToString(movesMade)];
      if gameOver {
        lines := lines + ["GAME OVER! All tiles matched."];
      }
      assert lines == RenderLines(st);
      return Ok(Join(lines, "\n"));
    }

    /** `get_state()`: a snapshot of board, mask and counters. */
    method GetState() returns (d: StateDict)
      requires Valid()
      ensures d.board == board && d.shown == State().shown
      ensures d.score == score && d.moves == movesMade && d.gameOver == gameOver
      ensures 2 * d.score == CountShown(d.shown) && d.moves >= 0
      ensures d.gameOver ==> AllShown(d.shown)
    {
      d := StateDict(board, Rows(shown), score, movesMade, gameOver);
    }

    /** `get_score()`: the number of matched pairs. */
    method GetScore() returns (s: int)
      requires Valid()
      ensures s == score && 2 * s == CountShown(State().shown)
    {
      s := score;
    }

    /** `get_moves_made()`. */
    method GetMovesMade() returns (m: int)
      requires Valid()
      ensures m == movesMade && m >= 0
    {
      m := movesMade;
    }

    /** `get_size()`. */
    method GetSize() returns (s: int)
      ensures s == size
    {
      s := size;
    }

    /** `reset(newSize)`. */
    method Reset(newSize: Option<int>, draws: seq<nat>) returns (r: Result<(), Exception>)
      requires Valid()
      requires ValidDraws(draws, ResetSize(State(), newSize) * ResetSize(State(), newSize))
      modifies this
      ensures (State(), r) == ResetSpec(old(State()), newSize, draws)
      ensures Valid()
      ensures r.Ok? ==> fresh(shown)
      ensures r.Err? ==> shown == old(shown)
    {
      ghost var before := State();
      if newSize.Some? {
        size := newSize.value;
      }
      r := Rebuild(draws);
      ResetFrom(before, newSize, draws, CreateBoardSpec(size, draws));
      CreateBoardPairs(size, draws);
      if r.Ok? {
        FreshStateInv(size, board);
      }
    }

    /** Lines 131-134 of `reset`: a board and mask from `create_board()` and the
      * counters zeroed; when `create_board()` raises, nothing is assigned. */
    method Rebuild(draws: seq<nat>) returns (r: Result<(), Exception>)
      requires ValidDraws(draws, size * size)
      modifies this
      ensures size == old(size)
      ensures r == if CreateBoardSpec(size, draws).Ok? then Ok(()) else Err(CreateBoardSpec(size, draws).error)
      ensures r.Err? ==> unchanged(this)
      ensures r.Ok? ==> CreateBoardSpec(size, draws).value == (board, Rows(shown)) && fresh(shown)
                        && shown.Length0 == size && shown.Length1 == size
                        && score == 0 && movesMade == 0 && !gameOver
    {
      var res := CreateBoard(size, draws);
      if res.Err? {
        return Err(res.error);
      }
      board, shown := res.value.0, res.value.1;
      score := 0;
      gameOver := false;
      movesMade := 0;
      return Ok(());
    }
  }
}
