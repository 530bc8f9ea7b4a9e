# A verified model of the Tetris board simulation and its rating bookkeeping

This project models the core of a small pygame Tetris game (Roman-Khamitov/Tetris) in Dafny and proves properties of the model.

The core has two parts.

- **The board simulation (`game.py`).**
  - The seven tetromino templates and their colours.
  - The active piece (class `Tetromino`: footprint, colour, column and row offset), with its spawn offset and its rotation `zip(*shape[::-1])`.
  - Class `Game`, which owns:
    - a 20×10 grid of empty cells and colours;
    - the active and the next piece;
    - the score;
    - the gravity accumulator;
    - the game-over flag.

    Its rules are the collision check, guarded move and rotate, hard drop, lock, line clearing, and the gravity tick.
- **The bookkeeping of `rating.py`.**
  - The list logic of `RatingSystem.save_highscore`: append, stable sort by score from highest to lowest, keep the first 100.
  - The account decision of `start_rating_game`: register, welcome, or reject.
  - The field-editing and submission rules of `LoginScreen.input_credentials`.

Modules:

- `Wrappers`: `Option`.
- `Tetrominoes`: the templates, the colours, rotation, and class `Tetromino`.
- `TetrisGame`: the board as a value (`seq<seq<Option<Color>>>`), the functions that specify the board operations, and class `Game`. The board is a field the methods reassign. `valid_position`, the write phase of `lock`, `clear_lines` and `drop` are methods with loops, as in the source. Each is proved against a function of the old state: `Fits`, `Stamp` or `Cleared`.
- `Highscores`: the highscore list as a function over `seq<Entry>`. Python's stable `list.sort(key=..., reverse=True)` is modelled as an insertion sort. It is proved sorted, a permutation and stable. These three properties together fix the result, so the model yields the same list as Python's sort.
- `Auth`: the login decision over a `map` from nickname to digest. The hash is an opaque function parameter.
- `LoginForm`: the editing state machine. `Step` handles one event and `Run` handles a stream of them. `InputCredentials` is the source's loop over the events, proved equal to `Run`.

Inputs from the outside world are parameters.

- The random next shape (`random.choice`) is the `Kind` argument of the constructor, `Restart`, `Lock`, `Drop` and `Update`.
- The tick count used as a record's date is the `date` argument.
- SHA-256 is the `hash` argument.
- `str.isprintable` is the `printable` argument.
- The on-screen rectangle that a mouse click hits is the `Target` of the event.

Two points about what the game does and does not do:

- The game has no levels, no cumulative line count and no changing fall speed. `fall_speed` is fixed at 500 (game.py:69), so the model has the constant `FALL_SPEED` and nothing else.
- A hard drop stops at the first row below which the piece does not fit (game.py:127-128). It moves down one row at a time while the next row is valid. A valid position further down, below an overhang, is never reached. `Game.Drop` states exactly that.

## Model

| member | source | states |
|---|---|---|
| Tetrominoes.Template | game.py:23-37 | the footprint of each kind, as the TETROMINOES table gives it (1 as filled) |
| Tetrominoes.ColorOf | game.py:39-47 | the colour of each kind, as the COLORS table gives it |
| Tetrominoes.Rotated | game.py:58 | `zip(*m[::-1])`: as many rows as `zip` yields tuples, each as long as `m` has rows; row i is column i of `m` read from the bottom up |
| Tetrominoes.TemplateIsTetromino | game.py:23-37 | every template is a non-empty rectangle with exactly four filled cells |
| Tetrominoes.Tetromino.constructor | game.py:51-55 | a new piece has the template and colour of its kind, column `COLUMNS/2 - width/2`, row 0 |
| Tetrominoes.ZipLength | game.py:58 | `zip(*m)` yields as many tuples as the shortest row has cells (none for no rows) |
| Tetrominoes.Tetromino.Rotate | game.py:57-58 | the footprint becomes its rotation; colour and offsets are unchanged |
| Tetrominoes.RotatedShape | game.py:57-58 | an h×w footprint rotates into a w×h one whose cell (i, j) is the old cell (h-1-j, i) |
| Tetrominoes.RotatedTwice | game.py:57-58 | two rotations turn a rectangle upside down and mirror it |
| Tetrominoes.HalfTurnedTwice | game.py:57-58 | two half turns give back the footprint |
| Tetrominoes.RotatedFourTimes | game.py:57-58 | four rotations give back every non-degenerate rectangular footprint |
| Tetrominoes.RotatedCells | game.py:57-58 | rotation moves each filled cell (r, c) to (c, h-1-r) and keeps the number of filled cells |
| Tetrominoes.RotatedWellFormed | game.py:57-58 | the rotation of a well-formed footprint is well formed |
| TetrisGame.Fits | game.py:82-92 | every filled cell of the footprint at the offset is inside the side walls and above the floor, and, in rows ≥ 0, over an empty cell |
| TetrisGame.Stamp | game.py:95-101 | the board with the footprint's filled cells in rows ≥ 0 set to the colour, every other cell as before |
| TetrisGame.KeptRows | game.py:109 | the rows that have an empty cell, in their order |
| TetrisGame.FullCount | game.py:110 | the number of rows without an empty cell |
| TetrisGame.Cleared | game.py:109-112 | one empty row on top per full row, then the kept rows |
| TetrisGame.SpawnFitsEmptyBoard | game.py:54-55 | every template fits at its spawn offset on the empty board |
| TetrisGame.FitsAboveFloor | game.py:88 | a fitting piece has its row offset above the floor, so a drop ends |
| TetrisGame.StampOccupies | game.py:94-101 | writing a fitting piece occupies exactly the old cells plus the piece's cells in rows ≥ 0, which were empty |
| TetrisGame.StampCoversVisible | game.py:97-101 | each visible piece cell is empty before the write and occupied after |
| TetrisGame.ClearedBoard | game.py:108-113 | clearing keeps 20×10, puts one empty row on top per full row, keeps the other rows in order, and leaves no full row |
| TetrisGame.ClearedIdempotent | game.py:108-113 | clearing a cleared board changes nothing and clears no row |
| TetrisGame.ClearSingleRow | game.py:108-113 | with one full row, clearing removes it, shifts the rows above down one, and adds one empty row on top |
| TetrisGame.KeptRowsAppend | game.py:109 | filtering and counting full rows distribute over concatenation |
| TetrisGame.Game.constructor | game.py:62-70 | empty board, score 0, accumulator 0, not over; the current and next pieces are fresh at their spawn offsets, and the invariant holds |
| TetrisGame.Game.Restart | game.py:79-80 | every field is back at its initial value, with fresh pieces |
| TetrisGame.Game.ValidPosition | game.py:82-92 | true exactly when every filled cell lands inside the side walls, above the floor, and, in rows ≥ 0, on an empty cell |
| TetrisGame.Game.PlaceCurrent | game.py:95-101 | the board becomes the old board with exactly the piece's filled cells in rows ≥ 0 set to its colour |
| TetrisGame.Game.ClearLines | game.py:108-114 | the board becomes the cleared board and the score grows by 100 per full row |
| TetrisGame.Game.Settle | game.py:95-102 | write then clear: the board is the cleared stamped board; the score grows by 100 per full row of it |
| TetrisGame.Game.Lock | game.py:94-106 | the board is cleared after the write; the current piece is the former next piece at its spawn offset; the next piece is fresh; game over exactly when the promoted piece does not fit at its spawn offset; the invariant holds |
| TetrisGame.Game.Move | game.py:116-118 | x grows by dx when the shifted position fits and stays otherwise; y, shape, colour, board and score are unchanged; the invariant holds |
| TetrisGame.Game.Rotate | game.py:120-124 | the shape is the rotated one when that fits at the same offset and the old one otherwise; x and y never move; the invariant holds |
| TetrisGame.Game.FallToRest | game.py:127-128 | y only grows; the piece fits at every row passed and at the final one, and not one row lower |
| TetrisGame.Game.Drop | game.py:126-129 | the piece falls as in FallToRest, then locks at its final row, as in Lock |
| TetrisGame.Game.Update | game.py:131-138 | dt is added to the accumulator. At or below 500 nothing else changes. Above 500 the accumulator is reset and the piece moves down one row when that fits, or locks. The invariant holds. |
| Highscores.Insert | rating.py:62 | one insertion step of the sort: the record goes in front of the first record it does not lose to, so the list grows by one |
| Highscores.SortByScore | rating.py:62 | the result is a sorted permutation of the list |
| Highscores.SortWithScore | rating.py:62 | the sort is stable: the records of each score keep their order |
| Highscores.CutOffScoresLower | rating.py:63 | no record cut off from a sorted list beats a kept one |
| Highscores.SaveHighscore | rating.py:52-63 | the saved list holds min(old + 1, 100) records, is sorted, comes from the old list plus the new record, and no dropped record beats a kept one |
| Highscores.SaveHighscoreStable | rating.py:54-62 | for each score, the saved records are the first ones of the old list with that score, then the new record |
| Highscores.SaveHighscoreKeepsAll | rating.py:61-63 | with fewer than 100 old records, the saved list is a permutation of the old list plus the new record |
| Auth.CheckLogin | rating.py:418-432 | unknown nickname: registered, the map gains nickname ↦ hash(password). Known nickname with another hash: rejected, map unchanged. Matching hash: welcomed, map unchanged. |
| Auth.LoginKeepsAccounts | rating.py:421-429 | no attempt loses or changes an account; the only key that can be added is the nickname tried |
| Auth.RegisteredThenLogin | rating.py:421-429 | after registering, the same password is welcomed and a password with another hash is rejected |
| LoginForm.DropLast | rating.py:291-293 | `s[:-1]`: the text without its last character, and the empty text stays empty |
| LoginForm.Typed | rating.py:298-304 | typing keeps the active field, and each text either stays or gets the typed text appended |
| LoginForm.KeyPress | rating.py:277-304 | a key press: Escape leaves; with no active field nothing else acts; then Enter, Backspace, Tab and typed text, in the source's order |
| LoginForm.Click | rating.py:306-332 | a click: only button 1 acts; nickname box, password box, login button, back button, elsewhere, in the source's order |
| LoginForm.Step | rating.py:273-332 | one event: quit, a key press, a click, or anything else (no effect) |
| LoginForm.Run | rating.py:268-332 | the events in order, until one ends the screen; the form after the last event otherwise |
| LoginForm.Strip | rating.py:282-283 | Python's strip: the slice of the text after its leading whitespace and before its trailing whitespace; only whitespace is removed, the result has none at either end, and it is empty exactly when the text is all whitespace |
| LoginForm.TrimPadded | rating.py:282-283 | what trimming both ends removes, before and after the slice it keeps, is whitespace |
| LoginForm.StripStripped | rating.py:282-283 | stripping twice is stripping once |
| LoginForm.Submit | rating.py:282-285 | hands back the stripped fields exactly when both are non-blank, and otherwise complains and keeps the form |
| LoginForm.EnterSubmits | rating.py:281-285 | Enter submits exactly when a field is active and both stripped fields are non-blank |
| LoginForm.ButtonSubmits | rating.py:318-320 | the login button submits exactly when both stripped fields are non-blank, whatever field is active |
| LoginForm.BackspaceEditsActive | rating.py:289-293 | Backspace removes the last character of the active field and changes nothing else |
| LoginForm.TabSwapsField | rating.py:295-296 | Tab makes the other field active and changes no text |
| LoginForm.TypingAppends | rating.py:298-304 | printable text is appended to the active field exactly when that field is under its cap (15 or 20); otherwise the form is unchanged |
| LoginForm.StepFacts | rating.py:273-332 | one event changes only the active field's text; a typed character keeps both caps; handed-back credentials are the non-blank stripped fields |
| LoginForm.RunBounded | rating.py:268-332 | over any stream of single-character key presses, the fields never exceed 15 and 20 and handed-back credentials are non-blank and within the caps |
| LoginForm.InputCredentials | rating.py:235-332 | the loop over the events, with its three variables updated in place, ends with the outcome `Run` gives |

## Left out

- Rendering and animation: `draw_board` and `draw_game_over` (float font size and alpha), the login screen's drawing, `animate_background`, `show_message` and the sounds. They compute nothing the rules depend on.
- `ParticleSystem`: float vectors and tick-based pseudo-randomness, outside the rules.
- The pygame event loops: `run_game`, `main_menu`, `show_highscores` and `main.py`. They are wiring. `InputCredentials` takes the events as a sequence instead of polling for them.
- `random.choice` in `new_tetromino` is the `Kind` parameter. Any sequence of shapes is allowed.
- File and JSON I/O: `load_users`, `save_users`, `load_highscores` and the `json.dump` of `save_highscore`. A missing or corrupt file reads as an empty collection in the source. Here the collections are arguments and results.
- `pygame.time.get_ticks` as the record date is the `date` parameter. `pygame.time.delay` is left out.
- SHA-256 in `hash_password` is the opaque `hash` parameter.
- `str.isprintable` is the opaque `printable` parameter. Python's whitespace set for `str.strip` is written out.
- Mouse hit-testing against the screen rectangles is reduced to the `Target` that the click hit, taken in the source's order.
- The error message and the hover highlights of the login screen are left out. A refused submission is the `complaint` flag of `Editing`.
- The `run_game(screen, mode="rating")` call and its result dictionary in `start_rating_game`: they do not match `run_game(screen)`, which returns nothing.
- The retry loop of `start_rating_game` after a wrong password is left out. `CheckLogin` decides one attempt.
- TetrisGame.Game.Lock: requires that the game is not over, which makes the active piece fit. The source's caller never calls it otherwise, and writing a non-fitting piece would index outside the grid or wrap around with a negative index.
- TetrisGame.Game.Drop: requires that the game is not over, for the same reason.
- TetrisGame.Game.Update: requires that the game is not over. `run_game` calls `update` only while `game_over` is false, for the tick and for the soft drop (`update(100)`).
- LoginForm.RunBounded: assumes each key press types at most one character. Longer `event.unicode` text would be appended whole and could pass a cap.
- Tetrominoes.RotatedFourTimes: stated for rectangular footprints of non-zero width and height, the only ones the templates and their rotations produce. `zip` truncation on ragged matrices is modelled by `Rotated`, but no round trip is claimed for them.
