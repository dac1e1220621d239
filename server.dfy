/** The game logic of environment/server.py: the single game the server starts
  * with, the reward rule and board of the `/act` route, and the `/reset` route.
  * The HTTP layer around them is not part of this model. */
module Server {
  import opened Wrappers
  import opened Board
  import opened GameModel
  import opened Game

  /** The body of an `/act` answer, `{"reward": reward, "board": ...}`. */
  datatype ActResponse = ActResponse(reward: int, board: string)

  /** The body of a `/reset` answer, `{"ok": True, "board": ...}`. */
  datatype ResetResponse = ResetResponse(ok: bool, board: string)

  /** The reward of one `/act` call from what `move` returned and the
    * `game_over` flag after it: -1 or 5, plus a bonus of 10 on a finished game. */
  function Reward(success: bool, gameOver: bool): (r: int)
    ensures r in {-1, 5, 9, 15}
    ensures success <==> r == 5 || r == 15
    ensures gameOver <==> r >= 9
  {
    (if success then 5 else -1) + (if gameOver then 10 else 0)
  }

  /** What `/act` does to a game in state `st`: the move, then the reward, then
    * the rendering of the state after the move. An exception from `move` or
    * from `get_board_ascii` ends the call. */
  function ActSpec(st: GameState, action: string): (r: (GameState, Result<ActResponse, Exception>))
    requires WellFormed(st)
    ensures WellFormed(r.0) && r.0.board == st.board
    ensures r.1.Ok? ==> r.1.value.reward in {-1, 5, 9, 15}
  {
    var (st', moved) := MoveSpec(st, action);
    if moved.Err? then (st', Err(moved.error))
    else
      var reward := Reward(moved.value, st'.gameOver);
      match Render(st')
      case Err(e) => (st', Err(e))
      case Ok(text) => (st', Ok(ActResponse(reward, text)))
  }

  /** A run of `/act` calls, one per action, with the answer of each. */
  function Session(st: GameState, actions: seq<string>): (r: (GameState, seq<Result<ActResponse, Exception>>))
    requires WellFormed(st)
    ensures WellFormed(r.0) && |r.1| == |actions|
    decreases |actions|
  {
    if actions == [] then (st, [])
    else
      var (st', answer) := ActSpec(st, actions[0]);
      var (last, answers) := Session(st', actions[1..]);
      (last, [answer] + answers)
  }

  /** The `/reset` route: `reset()` with its default size, then the rendering. */
  function ResetRouteSpec(st: GameState, draws: seq<nat>): (r: (GameState, Result<ResetResponse, Exception>))
    requires WellFormed(st)
    requires ValidDraws(draws, ResetSize(st, ResetDefaultSize) * ResetSize(st, ResetDefaultSize))
    ensures r.0.size == 4
  {
    CreateBoardPairs(ResetSize(st, ResetDefaultSize), draws);
    var (st', res) := ResetSpec(st, ResetDefaultSize, draws);
    if res.Err? then (st', Err(res.error))
    else
      match Render(st')
      case Err(e) => (st', Err(e))
      case Ok(text) => (st', Ok(ResetResponse(true, text)))
  }

  /** `act(request)` on the server's game. */
  method Act(game: GameMemory, action: string) returns (r: Result<ActResponse, Exception>)
    requires game.Valid()
    modifies game, game.shown
    ensures game.Valid() && game.shown == old(game.shown)
    ensures (game.State(), r) == ActSpec(old(game.State()), action)
  {
    var reward := 0;
    var moved := game.Move(action);
    if moved.Err? {
      return Err(moved.error);
    }
    if !moved.value {
      reward := -1;
    } else {
      reward := 5;
    }
    if game.gameOver {
      reward := reward + 10;
    }
    var board := game.GetBoardAscii();
    if board.Err? {
      return Err(board.error);
    }
    return Ok(ActResponse(reward, board.value));
  }

  /** `game_env = GameMemory()`: the game the server starts with. */
  method Startup(draws: seq<nat>) returns (game: GameMemory)
    requires ValidDraws(draws, InitDefaultSize * InitDefaultSize)
    ensures fresh(game) && game.Valid()
    ensures InitSpec(InitDefaultSize, draws) == Ok(game.State())
  {
    game := new GameMemory(InitDefaultSize, draws);
  }

  /** `reset()` on the server's game. */
  method ResetRoute(game: GameMemory, draws: seq<nat>) returns (r: Result<ResetResponse, Exception>)
    requires game.Valid()
    requires ValidDraws(draws, ResetSize(game.State(), ResetDefaultSize) * ResetSize(game.State(), ResetDefaultSize))
    modifies game
    ensures game.Valid()
    ensures (game.State(), r) == ResetRouteSpec(old(game.State()), draws)
  {
    var reset := game.Reset(ResetDefaultSize, draws);
    if reset.Err? {
      return Err(reset.error);
    }
    var board := game.GetBoardAscii();
    if board.Err? {
      return Err(board.error);
    }
    return Ok(ResetResponse(true, board.value));
  }

  // ---------------------------------------------------------------------------
  // Lemmas

  /** On a finished game, `/act` changes nothing and pays 9 whatever the action:
    * the move is refused (-1) and the game-over bonus (+10) is still added. The
    * call raises only when a failed reset left `size` larger than the board. */
  lemma ActAfterGameOver(st: GameState, action: string)
    requires WellFormed(st) && st.gameOver
    ensures ActSpec(st, action).0 == st
    ensures ActSpec(st, action).1.Err? <==> st.size > |st.board|
    ensures ActSpec(st, action).1.Ok? ==> ActSpec(st, action).1.value.reward == 9
  {
    MoveAfterGameOver(st, action);
  }

  /** Once the game is over, the state never changes again, and every further
    * `/act` call of a session pays 9 with the same board, or raises the same
    * `IndexError` when a failed reset left `size` larger than the board. */
  lemma {:induction false} SessionAfterGameOver(st: GameState, actions: seq<string>)
    requires WellFormed(st) && st.gameOver
    ensures Session(st, actions).0 == st
    ensures forall k :: 0 <= k < |actions| ==>
              Session(st, actions).1[k]
              == if st.size > |st.board| then Err(IndexError) else Ok(ActResponse(9, Render(st).value))
    decreases |actions|
  {
    if actions != [] {
      ActAfterGameOver(st, actions[0]);
      SessionAfterGameOver(st, actions[1..]);
    }
  }

  /** On a game that keeps the class invariant, the reward tells what the call
    * did: 15 for the move that finished the game, 9 on a game already over, 5
    * for an accepted move that did not finish it and -1 for a refused one. A
    * move is counted exactly when the reward is 5 or 15, and the answer's board
    * is the rendering of the new state. */
  lemma ActRewards(st: GameState, action: string)
    requires Inv(st)
    ensures var (st', r) := ActSpec(st, action);
            r.Ok? ==>
              (r.value.reward == 15 <==> !st.gameOver && st'.gameOver)
              && (r.value.reward == 9 <==> st.gameOver)
              && (r.value.reward == 5 <==> MoveSpec(st, action).1 == Ok(true) && !st'.gameOver)
              && (r.value.reward == -1 <==> MoveSpec(st, action).1 == Ok(false) && !st.gameOver)
              && st'.moves == st.moves + (if r.value.reward == 5 || r.value.reward == 15 then 1 else 0)
              && r.value.board == Render(st').value
  {
    MoveRejected(st, action);
  }

  /** The server starts with a 6 by 6 game of 18 pairs, nothing shown. */
  lemma StartupGame(draws: seq<nat>)
    requires ValidDraws(draws, InitDefaultSize * InitDefaultSize)
    ensures InitSpec(InitDefaultSize, draws).Ok?
    ensures var st := InitSpec(InitDefaultSize, draws).value;
            st.size == 6 && |st.board| == 6 && CountShown(st.shown) == 0 && Inv(st)
  {
    InitOutcome(InitDefaultSize, draws);
  }

  /** `/reset` always succeeds, and whatever the size before, it leaves a new
    * 4 by 4 game of 8 pairs with nothing shown, and answers its rendering. */
  lemma ResetRouteGame(st: GameState, draws: seq<nat>)
    requires Inv(st)
    requires ValidDraws(draws, ResetSize(st, ResetDefaultSize) * ResetSize(st, ResetDefaultSize))
    ensures var (st', r) := ResetRouteSpec(st, draws);
            Inv(st') && st'.size == 4 && |st'.board| == 4 && CountShown(st'.shown) == 0
            && st'.score == 0 && st'.moves == 0 && !st'.gameOver
            && r.Ok? && r.value.ok && r.value.board == Render(st').value
  {
    ResetOutcome(st, ResetDefaultSize, draws);
  }
}
