# Wordle key handling, modelled in Dafny

This project models the two key-driven state machines of the terminal Wordle
game, and the shareable summary that the raw-terminal variant produces:

- `src/game.rs`, `Game::start`: reads key events in raw terminal mode. It
  keeps a buffer of at most five characters and an append-only list of
  guesses. A full buffer in either word list is recorded as a guess. The
  game ends on the first correct guess, scored with the number of guesses,
  or after the sixth guess, scored `X`. Esc, or the end of the input, ends
  it without a share. `Game::share`, `GameType`'s `Display` and
  `GameShare`'s `Display` build and print the summary
  `Wordle {game type} {score}/6`, followed by one line per guess.
- `src/bin/wordle/controller/tui.rs`, `Controller::run` and
  `Controller::guess`: the TUI front end. Only letters are buffered, and
  Enter submits a full buffer to the game state. Only an accepted guess is
  pushed to the on-screen keyboard. After game over, the controller waits
  for Enter or Esc and then returns the share.

Layout:

- `wrappers.dfy`: `Option` and `Result`.
- `ascii.dfy`: Rust's `is_ascii`, `is_ascii_alphabetic` and
  `to_ascii_lowercase` on `char`.
- `share.dfy`: game types, collecting one `diff` result per guess, the
  share text, and reading the text back. The reading back is the inverse
  that the formatting is proved against.
- `game.dfy`: the raw-terminal game. `Step` is one key and `Play` is a
  sequence of keys. The class `Game` runs the `for` loop of `start` and is
  proved to agree with `Play`.
- `tui.dfy`: the TUI controller. `Step` is one event and `Drive` is a
  sequence of events. The class `Controller` runs the two `loop`s of `run`
  and is proved to agree with `Drive`.

Modelling decisions:

- The word lists `words::ACCEPT` and `words::FINAL` are parameters of type
  `set<string>`.
- `logic::diff` is a parameter `(string, string) -> Result<M, E>`.
- The `Display` of `Matches` is a parameter `M -> string`.
- In the TUI, the game state's answer to a guess (`Err`, or `Ok` followed
  by `game_over()`) travels with each input event as an `Answer`. It is
  consulted only when that event submits a full buffer.
- The keyboard is modelled as the list of `(word, matches)` pairs pushed
  to it, in order.
- Rust's `String::len` counts bytes. Both buffers only ever hold ASCII
  characters, so here it is the number of characters.
- `Game.Start` requires fewer than six guesses at the start. Every `Game`
  is built with none, and `start` consumes the game, so this always holds.
  It also keeps `char::from_digit(len, 10).unwrap()` from panicking.
- When the events run out, the two variants behave differently, and so do
  their models. In `src/game.rs` the end of `stdin.keys()` returns
  `Ok(None)`, which `Play` models as `Quit`. In the TUI, `event::read`
  would block. `Controller.Run` then returns the phase it is waiting in
  (`Typing` or `Over(win)`).

Behaviour of the code that the model keeps on purpose:

- In `Game::start`, the arm for any ASCII character comes before the arm
  for `'\n'`. While the buffer holds fewer than five characters, Enter
  therefore buffers a `'\n'`.
- A full buffer that is in neither word list stays in the buffer.
- A custom solution is compared as given against the lower-cased buffer.
  A solution with an upper-case letter can never be won
  (`Game.UpperCaseSolutionNeverWins`).

`Game::start` checks the word lists itself, and it stops reading keys once
the game is over. Enter on a short buffer is buffered as `'\n'`, so no
guess is ever rejected for its length.

Every redraw of the guesses (`draw_valid`, also called by `draw_invalid`)
runs `logic::diff` on each recorded guess. An error from it ends `start`
with that error, whenever `logic::diff` returns one.
The model keeps this error path: `Game.Game.DrawValid`, and the `Fail`
transition of `Game.Step`.

## Model

| member | source | states |
|---|---|---|
| `Ascii.ToLower` | src/game.rs:90 | A buffered character is never an upper-case ASCII letter. It is ASCII exactly when the key was, and a lower-case letter exactly when the key was alphabetic. Every other character is kept as it is. |
| `Share.DigitChar` | src/game.rs:102-103 | `char::from_digit(n, 10)` for `n < 10` is a decimal digit whose value is `n`. |
| `Share.NatToString` | src/game.rs:35 | A day number is shown as a non-empty string of decimal digits without a leading zero. |
| `Share.ParseNatToString` | src/game.rs:35 | Reading the decimal text of a day number gives back that number. |
| `Share.GameTypeText` | src/game.rs:32-38 | A game type is shown as `custom` exactly for a custom game. A daily game is shown as digits that read back as its day. The text is one non-empty line. |
| `Share.CollectDiffs` | src/game.rs:133-137 | When collecting `diff` over the guesses succeeds, it holds one match result per guess, in guess order. |
| `Share.CollectDiffsFirstError` | src/game.rs:133-137 | If guess `k` is the first whose `diff` fails, collecting fails with that guess's error. |
| `Share.CollectDiffsAllOk` | src/game.rs:133-137 | If `diff` succeeds on every guess, collecting succeeds. |
| `Share.MakeShare` | src/game.rs:128-140 | The share carries the game type, the score and the collected match results. It fails exactly when collecting fails, with the same error. |
| `Share.Render` | src/game.rs:199-211 | The loop writes the header `Wordle {game type} {score}/6`, then `"\n"` and the rendering of each match, in order. |
| `Share.HeaderRoundTrip` | src/game.rs:201-206 | The game type and the score can be read back from the header line. |
| `Share.ShareTextLines` | src/game.rs:199-211 | Split at line breaks, the share text is the header followed by exactly one line per guess, in guess order. |
| `Game.Recorded` | src/game.rs:95-98 | Enter on a full buffer records the word exactly when it is in one of the word lists. Otherwise the guesses stay as they were. |
| `Game.Step` | src/game.rs:86-121 | Esc is the only key that exits. The buffer stays at 5 characters or fewer. An ASCII key is buffered lower-cased exactly while the buffer is short, `'\n'` included. An unknown full word stays buffered and nothing is recorded. A guess is recorded, once, exactly when `'\n'` submits a full dictionary word. Submitting redraws the guesses and fails exactly when `diff` fails on one of them, with the first error. Keys that reach `_ => {}` change nothing. A guess that does not end the game empties the buffer. The game ends on a correct guess with the guess count as its digit score, or on the sixth guess with `X`. Backspace drops the last character, if any. |
| `Game.PlayOutcome` | src/game.rs:85-125 | Earlier guesses are never altered, and at most 6 are ever made. Every new guess is a full dictionary word. A run without a share has not reached the end. A failed run failed on a newly recorded guess, with the first error of `diff`. A share comes on the first correct guess, scored with its number in `1`..`6`, or after six wrong guesses, scored `X`. |
| `Game.TypingFillsBuffer` | src/game.rs:89-93 | Typing lower-case letters into a buffer with room for them appends them, in order. |
| `Game.TypingTheSolutionWins` | src/game.rs:89-104 | Typing a lower-case dictionary solution and pressing Enter records it and wins, scored with the digit of the new guess count, unless redrawing the guesses fails. |
| `Game.RejectedWordIsKept` | src/game.rs:94-96 | Pressing Enter any number of times on an unknown full word leaves the rest of the game as if it had not been pressed. This holds when the recorded guesses redraw without error, which is true in every state `start` reaches. |
| `Game.UpperCaseSolutionNeverWins` | src/game.rs:89-101 | With a solution that contains an upper-case letter, no run ends in a win. |
| `Game.Game.constructor` | src/game.rs:69-76 | A new game has its solution and type and no guesses. |
| `Game.Game.DrawValid` | src/game.rs:152-158 | The redraw loop runs `diff` on each guess in order. It fails exactly when collecting `diff` over the guesses fails, with the same first error. |
| `Game.Game.Start` | src/game.rs:78-126 | The key loop ends with exactly the guesses and result that `Play` gives from an empty buffer. It returns no share on Esc or at the end of the input, the error of a failed redraw, or otherwise the share of the final guesses and score. |
| `Tui.Step` | src/bin/wordle/controller/tui.rs:44-89 | Every session the loop reaches stays valid: at most 5 lower-case letters buffered, pushed words of 5 lower-case letters, and the solution written out exactly when the game was lost. Each accepted guess adds exactly one keyboard push, and nothing else adds any. A short Enter or a rejected guess changes nothing. A letter is buffered lower-cased exactly when it is alphabetic and the buffer is short. Any other character key, and any key without an arm, changes nothing. An accepted guess either ends the game with its win flag or clears the buffer. Esc while typing quits, and nothing else does. After game over, only Enter or Esc moves on, to the share. |
| `Tui.DriveKeepsValid` | src/bin/wordle/controller/tui.rs:44-91 | Over any run, the session stays valid and the keyboard pushes only grow. |
| `Tui.WaitLoop` | src/bin/wordle/controller/tui.rs:81-91 | After game over, the share is returned exactly when an Enter or Esc arrives, and nothing else changes. |
| `Tui.GameOverNeedsAcceptedGuess` | src/bin/wordle/controller/tui.rs:54-62 | The game ends only through an accepted guess whose answer carries the win flag. The last keyboard push holds that answer's match result. |
| `Tui.RejectionsChangeNothing` | src/bin/wordle/controller/tui.rs:54-64 | Any number of rejected guesses leave the whole run as it was. |
| `Tui.AwaitShare` | src/bin/wordle/controller/tui.rs:81-89 | The wait loop ends with the phase `Drive` reaches from a game-over session: the share on the first Enter or Esc, otherwise still waiting. Nothing else in the session changes. |
| `Tui.Controller.constructor` | src/bin/wordle/controller/tui.rs:31-37 | A new controller has an empty keyboard. |
| `Tui.Controller.Guess` | src/bin/wordle/controller/tui.rs:94-98 | A guess succeeds exactly when the game state accepts it. Only then is `(word, matches)` pushed to the keyboard, once. |
| `Tui.Controller.Key` | src/bin/wordle/controller/tui.rs:47-71 | One key of the input loop gives the buffer, phase and keyboard that `Tui.Step` gives. |
| `Tui.Controller.Run` | src/bin/wordle/controller/tui.rs:39-92 | The input loop, then the wait loop (`Tui.AwaitShare`), ends with exactly the phase, keyboard pushes and final-solution output that `Drive` gives from an empty buffer. |

## Left out

- Terminal output is left out: `draw_window`, `draw_invalid`, `display_window` and `display_invalid`, plus cursor and colour escapes. What `draw_valid` and `draw_guess` write is left out too. Only `draw_valid`'s loop of `draw_guess` calls and their `logic::diff(..)?` error are kept (`Game.Game.DrawValid`). `write_final_solution` is kept only as the `revealed` flag.
- Reading keys from standard input or `event::read`, and I/O errors on reads, writes and flushes. Keys are an input sequence, and every write succeeds.
- In the TUI, non-key events fail the `if let Event::Key` test and are skipped. Keys that no arm names reach `_ => {}`. Both leave the state as it is, so both are modelled as `Other`. In `src/game.rs`, keys that no arm names are `Other`.
- `Game::new` reads the local clock and passes the date to `Game::from_date`. That calls `logic::get_day`. `Game::from_day` calls `logic::get_solution`. Neither function is part of this model. The constructor takes the solution and game type as given.
- `logic::diff`, `Matches` and its `Display`, the `state` module's `guess` and `game_over`, `Keyboard`, `Guesses` and `WordMatch` are not part of this model. They appear only as parameters and logs. Letter scoring is therefore not modelled.
- The contents of `words::ACCEPT` and `words::FINAL` are not modelled. They are parameters.
- The TUI's `self.game.share()` is not part of this model. The phase `Shared(win)` stands for the returned share.
