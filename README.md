# Memory game engine, in Dafny

A model of the card-pairs memory game behind a small HTTP environment.

`GameMemory` (environment/game.py) keeps:
- an N×N board of integer labels, in which every label occurs exactly twice;
- an N×N boolean `shown` mask;
- a `score`, a `moves_made` counter and a `game_over` flag.

An action `"r1 c1 r2 c2"` reveals two cells. A pair with equal labels stays shown and scores a point. A pair with different labels is hidden again at once. The game is over when every cell is shown.

The `/act` route of environment/server.py turns the result of `move` and the `game_over` flag into a reward and answers with the rendered board. `/reset` starts a new game. The server's game is created with the default size 6, and `reset()` uses its own default of 4.

Layout:
- `wrappers.dfy`: `Option` and `Result`.
- `pytext.dfy` (module `PyText`): the Python string operations the engine relies on. These are `str.split()`, `sep.join`, `int()` on a token, `str(n)`, `f"{n:2}"` and `s * n`.
- `board.dfy` (module `Board`): `create_board`. This is the pair list, CPython's Fisher–Yates `random.shuffle` with its random draws passed in, and the row-major reshape.
- `game_model.dfy` (module `GameModel`): the object's fields as a `GameState` value, and one function per operation: `MoveSpec`, `ShowPair`, `ResetSpec`, `InitSpec` and `Render`. It also holds the invariant `Inv` and the lemmas that state what each operation guarantees.
- `game.dfy` (module `Game`): the class `GameMemory`. Its mask is an `array2<bool>` that `move` writes in place. The public operations are the constructor, `Move`, `Reset`, `GetBoardAscii`, `GetState` and the getters. The first three are proved to change the object exactly as the matching `GameModel` function says (`InitSpec`, `MoveSpec`, `ResetSpec`) and to keep the class invariant `Valid()`; the others change nothing. `CheckGameOver`, `SetPair`, `ShowPair`, `FormatRow` and `Rebuild` are the steps these are built from. Each step is proved against the state functions, not against `Valid()`, because it runs on a state that is between two valid ones. That `check_game_over` keeps the invariant of any valid state is proved separately, as the lemma `GameModel.CheckGameOverInv`.
- `server.dfy` (module `Server`): the reward rule, `/act`, the startup game and `/reset`, each as a function on values and as a method on the class.

The rendering, as written, does not line up. A border segment `-----+` is six characters wide, but a cell `[vv]|` or ` vv |` with a two-character label is five. A row of `size` cells is therefore `size` characters shorter than the border above it. `GameModel.RowWidth` proves both widths.

Python exceptions are modelled as `Err` values:
- `ValueError` comes from `create_board`: an odd `size * size`, or a negative size refused by `reshape`.
- `IndexError` comes from numpy's bounds checks. These fire only when a failed `reset` has left `size` larger than the board. `move` and `get_board_ascii` then index past the grid.

## Model

| member | source | states |
|---|---|---|
| PyText.TokenLength | environment/game.py:35 | the run it measures has no whitespace and ends at whitespace or at the end of the text |
| PyText.IsSpace | environment/game.py:35 | the characters `str.split()` treats as separators: ASCII whitespace, the information separators 0x1C-0x1F and the Unicode spaces and line breaks |
| PyText.Split | environment/game.py:35 | `split()` yields only non-empty tokens without whitespace |
| PyText.SplitOfJoin | environment/game.py:35 | splitting single-space-joined tokens gives the same tokens back |
| PyText.TokenLengthOfPrefix | environment/game.py:35 | a token followed by whitespace or the end of the text is measured to its own length |
| PyText.NatToString | environment/game.py:94 | `str(n)` of a natural number is non-empty, all digits, without a leading zero |
| PyText.DigitsValueOfNatToString | environment/game.py:38 | the digits of `str(n)` denote `n` |
| PyText.ParseIntOfDigits | environment/game.py:38 | `int()` of a digit run, with or without a minus sign, is its value or its negation |
| PyText.ParseIntOfIntToString | environment/game.py:38 | `int(str(n)) == n` for every integer |
| PyText.IntToStringEndsWithDigit | environment/game.py:94 | `str(n)` is non-empty and ends with a digit |
| PyText.RepeatLength | environment/game.py:78 | `s * n` is `n` times as long as `s`, and 0 when `n <= 0` |
| PyText.RepeatSpaces | environment/game.py:87-89 | `" " * n` consists of spaces only |
| PyText.FormatWidthLayout | environment/game.py:87-89 | `f"{n:w}"` is `str(n)` right-aligned: padded with spaces to width `w`, never truncated |
| PyText.ConcatLength | environment/game.py:81-90 | appending parts of one width `w` gives `w` times their count |
| PyText.Concat | environment/game.py:87-89 | the string `row_str += part` builds, one part after another; `ConcatLength`, `ConcatAt` and `ConcatSnoc` state its length, layout and growth |
| PyText.ConcatSnoc | environment/game.py:87-89 | `row_str += part` extends the concatenation of the first `j` parts to the first `j + 1` |
| PyText.ConcatAt | environment/game.py:81-90 | with parts of width `w`, part `j` sits at positions `w * j` to `w * j + w` |
| PyText.JoinFirst | environment/game.py:98 | `"\n".join(lines)` starts with the first line |
| PyText.JoinLast | environment/game.py:98 | `"\n".join(lines)` ends with the last line |
| PyText.Join | environment/game.py:98 | `sep.join(parts)`: the parts with `sep` between neighbours; `JoinFirst` and `JoinLast` give its ends |
| PyText.Repeat | environment/game.py:78 | `s * n`: `n` copies of `s`, and the empty string when `n <= 0`; `RepeatLength` gives its length |
| PyText.IntToString | environment/game.py:94 | `str(n)`: a minus sign for a negative `n`, then the digits of its magnitude; `ParseIntOfIntToString` is its inverse |
| PyText.FormatWidth | environment/game.py:87-89 | `f"{n:w}"`: `str(n)` after spaces up to width `w`; `FormatWidthLayout` states its layout |
| PyText.DigitsValue | environment/game.py:38 | the value `int()` gives a run of decimal digits, leading zeros allowed; `DigitsValueOfNatToString` ties it to `str(n)` |
| PyText.ParseInt | environment/game.py:38 | `int()` of a token: an optional sign and at least one decimal digit, otherwise the `ValueError` `move` catches. A result ends with a digit, and a negative one starts with `-` |
| Board.Labels | environment/game.py:23 | `range(1, half + 1)` has `half` elements |
| Board.Pairs | environment/game.py:23 | the pair list has `2 * half` elements |
| Board.LabelsCount | environment/game.py:23 | each of `1..half` occurs once in the label range, and nothing else occurs |
| Board.PairsCount | environment/game.py:23 | each of `1..half` occurs exactly twice in the pair list, and nothing else occurs |
| Board.ShuffleDown | environment/game.py:24 | the shuffle loop keeps the length |
| Board.Shuffle | environment/game.py:24 | `random.shuffle` with its random draws given, keeping the length; `ShufflePermutes` proves it a permutation |
| Board.SwapPermutes | environment/game.py:24 | one swap of the shuffle keeps the multiset |
| Board.ShuffleDownPermutes | environment/game.py:24 | the shuffle loop keeps the multiset, whatever the draws |
| Board.ShufflePermutes | environment/game.py:24 | `random.shuffle` is a permutation, whatever the draws |
| Board.FlattenChunk | environment/game.py:25 | cutting a list into rows and flattening again gives the list back |
| Board.ChunkShape | environment/game.py:25 | `m * n` values cut into rows of `n` give `m` rows of `n` |
| Board.FlattenReshape | environment/game.py:25 | `reshape(n, n)` gives `n` rows of `n`, and flattening it gives the shuffled list back |
| Board.Reshape | environment/game.py:25 | `np.array(nums).reshape(n, n)`: consecutive rows of `n`; `FlattenReshape` proves the shape and that it flattens back |
| Board.SquareParity | environment/game.py:20-22 | `size * size` is even exactly when `size` is even |
| Board.AllFalse | environment/game.py:26 | `np.zeros((n, n), dtype=bool)` is `n` by `n` |
| Board.CreateBoardSpec | environment/game.py:18-27 | `create_board` for a size: it raises only `ValueError`, and on success the size is non-negative and the mask is all false; `CreateBoardPairs` gives the full characterisation |
| Board.CreateBoardPairs | environment/game.py:18-27 | `create_board` succeeds exactly for even non-negative sizes and raises `ValueError` otherwise; on success the board is `size` by `size`, every label `1..size²/2` occurs exactly twice, no other value occurs, and the mask is all false with the same shape |
| GameModel.InitSpec | environment/game.py:11-16 | `GameMemory(size)`: it succeeds exactly when `create_board` does, and then has that size, zero counters and the game not over |
| GameModel.ResetSpec | environment/game.py:123-134 | `reset(size)`: the size afterwards is the new one (the current one for `None`), and when `create_board` raises nothing else changes |
| GameModel.ParseMove | environment/game.py:34-40 | the four integers of an action, or `None` where `move` returns `False`; it succeeds only on exactly four tokens. `ParseFormatMove` is its round trip |
| GameModel.InSize | environment/game.py:42-48 | all four coordinates lie in `[0, size)` |
| GameModel.SetCell | environment/game.py:54-55 | one in-place write `shown[i, j] = v`, as a value; also lines 62-63. `SetCellUndo` and `CountSetCell` state what two writes do |
| GameModel.ResetSize | environment/game.py:129-130 | the size `reset` builds: the given size, or the current one for `None` |
| GameModel.SetCellUndo | environment/game.py:54-63 | showing two hidden cells and then hiding them again gives back the mask |
| GameModel.MoveSpec | environment/game.py:29-67 | `move` keeps the board and the size, and keeps the mask the board's shape |
| GameModel.ShowPair | environment/game.py:53-67 | revealing an accepted pair keeps the board, the size and the mask's shape |
| GameModel.Border | environment/game.py:78 | `"+" + "-----+" * size`: starts with `+`; `RowWidth` gives its length |
| GameModel.AllShown | environment/game.py:71 | `np.all(shown)`: every cell of the mask is shown |
| GameModel.CellText | environment/game.py:86-89 | one cell: the label in width 2 in brackets when shown, between spaces when hidden; `CellTextWidth` and `RowLayout` state its width and place |
| GameModel.RowCells | environment/game.py:82-89 | a row has one cell text per column of the board |
| GameModel.RowTexts | environment/game.py:80-91 | the rendering has one row per index of `range(size)` |
| GameModel.RowText | environment/game.py:81-90 | `row_str` for row `i`: a bar character followed by the cells of the columns in `range(size)`; `RowLayout` and `RowWidth` state its layout |
| GameModel.StatusLine | environment/game.py:94 | the line `"\nScore: s  Moves: m"` with the score and the move count |
| GameModel.RenderLines | environment/game.py:75-96 | the `lines` list: the top border, each row followed by a border, the score line, and the notice when the game is over; `RenderShape` states it line by line |
| GameModel.Interleave | environment/game.py:90-91 | each row is followed by a border line, giving twice as many lines |
| GameModel.Render | environment/game.py:73-98 | `get_board_ascii()`: the lines joined by newlines, or the `IndexError` when `size` exceeds the board; `RenderShape`, `RenderStartsWithBorder` and `RenderEndsWithNotice` state its layout |
| GameModel.IntToStringNoSpace | environment/game.py:35-38 | `str(n)` contains no whitespace, so it survives `split()` as one token |
| GameModel.ParseFormatMove | environment/game.py:34-40 | the action text `"r1 c1 r2 c2"` for any four integers parses back to those integers |
| GameModel.MoveAfterGameOver | environment/game.py:31-32 | once the game is over, `move` returns `False` and changes nothing |
| GameModel.MoveRejected | environment/game.py:31-51 | `move` changes no field unless it returns `True`. It returns `False` exactly when the game is over, the action is not four integers, a coordinate is outside `[0, size)`, a cell is already shown, or both coordinates name one cell. It raises only when a coordinate lies outside the grid. It returns `True` exactly for an applicable move on a game not over |
| GameModel.MoveMatch | environment/game.py:54-67 | a valid move on equal labels shows both cells, scores 1, counts 1 move, leaves every other cell alone, adds 2 shown cells and returns `True` |
| GameModel.MoveMismatch | environment/game.py:54-67 | a valid move on unequal labels leaves the mask, score and flag as they were, counts 1 move and returns `True` |
| GameModel.CountSetCell | environment/game.py:54-55 | showing a hidden cell adds exactly one shown cell |
| GameModel.CountAllFalse | environment/game.py:26 | a fresh mask shows no cell |
| GameModel.PartneredAfterMatch | environment/game.py:54-59 | after a matched pair is shown, every shown cell still has a different shown cell with the same label |
| GameModel.MovePreservesInv | environment/game.py:29-71 | `move` keeps the invariant. The board and size never change, and shown cells stay matched pairs. `2 * score` stays the number of shown cells. After a move that returns `True`, `game_over` holds exactly when every cell is shown |
| GameModel.CheckGameOverInv | environment/game.py:69-71 | `check_game_over` on a state with the invariant keeps it, changes neither board nor mask, and sets the flag exactly when every cell is shown |
| GameModel.FreshStateInv | environment/game.py:131-134 | a fresh pair board with an empty mask and zero counters satisfies the invariant |
| GameModel.InitOutcome | environment/game.py:11-16 | `GameMemory(size)` fails exactly for an odd or negative size. Otherwise it starts a game of that size with nothing shown, zero counters and the invariant holding |
| GameModel.ResetOutcome | environment/game.py:123-134 | `reset(size)` on an odd or negative size raises `ValueError` after overwriting `size`, and keeps the board, mask and counters. On any other size it starts a fresh game of that size. The invariant holds either way |
| GameModel.ResetFrom | environment/game.py:129-134 | `reset` assigns `size` first and then either takes the new board with zeroed counters, or keeps everything else when `create_board` raises |
| GameModel.FormatWidthTwo | environment/game.py:87-89 | a label between -9 and 99 prints two characters wide |
| GameModel.CellTextWidth | environment/game.py:86-89 | such a label makes a cell of five characters, shown or hidden |
| GameModel.CellsWidth | environment/game.py:82-89 | every cell of a row of such labels is five characters wide |
| GameModel.RowLayout | environment/game.py:81-90 | for labels of at most two characters (-9 to 99), row `i` is `1 + 5 * size` characters long, and characters `1 + 5j` to `6 + 5j` hold cell `j`'s label: in brackets when the cell is shown, between spaces when it is hidden. |
| GameModel.RowWidth | environment/game.py:78-91 | the border is `1 + 6 * size` characters, and a row whose labels have at most two characters (-9 to 99) is `1 + 5 * size`. Boards of size 16 or more hold three-digit labels, and their cells are wider |
| GameModel.CellsStep | environment/game.py:82-89 | one pass of the inner loop appends cell `j` to the row text |
| GameModel.LinesStep | environment/game.py:80-91 | one pass of the outer loop appends row `i` and a border |
| GameModel.RenderRowAt | environment/game.py:90-91 | line `2i + 1` of the rendering is row `i`, and the next line is a border |
| GameModel.RenderShape | environment/game.py:73-98 | the rendering has these lines: the top border; each row followed by a border; the score line; and the game-over notice exactly when the game is over |
| GameModel.RenderStartsWithBorder | environment/game.py:78 | the rendered text starts with `"+" + "-----+" * size` |
| GameModel.RenderEndsWithNotice | environment/game.py:94-98 | the rendered text ends with `GAME OVER! All tiles matched.` exactly when `game_over` holds |
| Game.Rows | environment/game.py:103-104 | `tolist()` of the mask has its rows, columns and values |
| Game.GameMemory.CreateBoard | environment/game.py:18-27 | the board and a fresh mask array as `create_board` builds them, or its `ValueError` |
| Game.GameMemory.constructor | environment/game.py:11-16 | a new game is the initial state of that size, and keeps the class invariant |
| Game.GameMemory.CheckGameOver | environment/game.py:69-71 | `game_over` is set to whether every cell of the mask is shown |
| Game.GameMemory.SetPair | environment/game.py:54-55 | two cells of the mask are written in place and no other cell changes |
| Game.GameMemory.Move | environment/game.py:29-67 | `move` changes the object and returns exactly as `MoveSpec`, writes the mask in place and keeps the invariant |
| Game.GameMemory.ShowPair | environment/game.py:53-67 | the reveal, the re-hide on a mismatch, the counters and the game-over check change the object as `GameModel.ShowPair` |
| Game.GameMemory.FormatRow | environment/game.py:81-90 | the inner loop builds row `i` of the rendering, or raises `IndexError` when `size` exceeds the board |
| Game.GameMemory.GetBoardAscii | environment/game.py:73-98 | `get_board_ascii` returns exactly `Render` of the current state |
| Game.GameMemory.GetState | environment/game.py:100-108 | the snapshot holds the board, mask and counters; twice its score is its number of shown cells; its flag implies a full mask |
| Game.GameMemory.GetScore | environment/game.py:111-113 | the score is half the number of shown cells |
| Game.GameMemory.GetMovesMade | environment/game.py:115-117 | the move count, never negative |
| Game.GameMemory.GetSize | environment/game.py:119-121 | the current size |
| Game.GameMemory.Reset | environment/game.py:123-134 | `reset` changes the object exactly as `ResetSpec` and keeps the invariant; a raised `ValueError` leaves the old mask array in place |
| Game.GameMemory.Rebuild | environment/game.py:131-134 | a new board and mask with zeroed counters, or, when `create_board` raises, no field changed |
| Server.Reward | environment/server.py:31-41 | the reward is one of -1, 5, 9 and 15; it is 5 or 15 exactly when `move` succeeded, and at least 9 exactly when the game is over |
| Server.ActSpec | environment/server.py:29-43 | `/act` as a function: the move, the reward and the rendering; the board is kept and every reward is one of -1, 5, 9 and 15. `ActRewards` characterises each reward |
| Server.ResetRouteSpec | environment/server.py:46-49 | `/reset` as a function: `reset()` with its default, then the rendering; the size afterwards is always 4. `ResetRouteGame` states the whole outcome |
| Server.Session | environment/server.py:29-43 | a run of `/act` calls answers each action once |
| Server.Act | environment/server.py:29-43 | `/act` changes the game and answers exactly as `ActSpec`, and keeps the invariant |
| Server.Startup | environment/server.py:19 | the server's game is the initial state of size 6 |
| Server.ResetRoute | environment/server.py:46-49 | `/reset` changes the game and answers exactly as `ResetRouteSpec`, and keeps the invariant |
| Server.ActAfterGameOver | environment/server.py:31-41 | on a finished game `/act` changes nothing and pays 9, because the refused move still receives the bonus |
| Server.SessionAfterGameOver | environment/server.py:29-43 | once the game is over, the state never changes again, and every further `/act` of a session pays 9 with the same board, or raises the same `IndexError` when `size` exceeds the board |
| Server.ActRewards | environment/server.py:31-43 | 15 exactly for the move that finishes the game, 9 exactly on a game already over, 5 exactly for an accepted move that does not finish it, and -1 exactly for a refused move. A move is counted exactly when the reward is 5 or 15. The answer's board is the rendering of the new state |
| Server.StartupGame | environment/server.py:19 | the server starts a 6 by 6 game with nothing shown that keeps the invariant |
| Server.ResetRouteGame | environment/server.py:46-49 | `/reset` always succeeds and, whatever the size before, leaves a fresh 4 by 4 game that keeps the invariant, with nothing shown and zero counters. It answers `ok` with that game's rendering |

## Left out

- The FastAPI application, the `ActRequest` schema, logging, and the `/health`, `/state` and `/board` routes (environment/server.py:1-26, 52-60). These are HTTP plumbing. `get_state` itself is modelled.
- server/tools.py is not part of this model. It is an HTTP client for an external agent framework.
- environment/enums.py is not part of this model. Its result enum is never used: `move` returns a boolean.
- `random.shuffle`: the random number generator is not modelled. Its draws are a parameter (`draws[i] <= i`), so every permutation the shuffle can produce is covered.
- `int()` accepts underscores, non-ASCII digits and surrounding whitespace. The model parses a token as an optional sign followed by ASCII digits. Surrounding whitespace never reaches `int()`, because `split()` removes it.
- The reward -1 is the float `-1.0` in the source, so the JSON shows `-1.0` or `9.0` where the model has the integers -1 and 9.
- Game.GameMemory.constructor: requires an even, non-negative size, because a Dafny constructor cannot fail. `InitSpec` and `InitOutcome` model the `ValueError` for every other size.
- Game.GameMemory.CreateBoard: a static method that takes the size as an argument, where the source reads `self.size`. `Reset` assigns `size` before calling it, as the source does.
- Numpy arrays: the board is a sequence of rows, because no method writes it in place. The mask is an `array2<bool>`. `tolist()` is `Game.Rows`.
- An accumulated reward, a debug reveal flag and masked rendering of hidden cells. The code has none of these: hidden cells print their label between spaces, and `/act` returns each reward on its own. The model follows the code.
- The thread safety of the shared game across requests, which the getters' comment about multiprocessing proxies alludes to. The model is sequential.
