# Word game round engine — a Dafny model

This project models the round engine of the browser word-guessing game
("le pendu") in `games/hangman/script.js`. The host types a phrase, and
players take turns guessing letters until the phrase is fully shown or the
error budget runs out. The model covers:

- the state record,
- the phrase clean-up,
- the transitions triggered by the buttons and the letter field: guess,
  random reveal, reveal all, win test, win and loss handling, new round and
  settings,
- the player list with its round-robin turn,
- the capped, newest-first history,
- the greedy packing of the phrase's words into board rows.

The model is a set of pure functions over one immutable `Game.State`, with
these modules:

- `Text`: JavaScript's `\s` whitespace class, `trim`, and the ASCII part of the
  phrase normalisation.
- `Board`: which positions a letter occupies, which positions are still
  hidden, and the `checkWin` scan.
- `Players`: the player list, the turn cursor, and the win and round tallies.
- `History`: the log of finished rounds, capped at twenty, newest first.
- `Layout`: splitting the phrase at spaces and packing the words into rows 14
  cells wide.
- `Game`: the state record and every handler of the round.
- `Session`: all user actions as events. Every state reachable from the fresh
  page keeps the invariants. In particular, no player ever has more wins
  than rounds played.

Inputs the game takes from its environment are parameters:

- The random number in `revealRandomLetter` becomes a caller-supplied `draw`.
  The chosen position is `hidden[draw % |hidden|]`. This is the same pick as
  `Math.floor(Math.random() * n)` for the draw `floor(random * n)`.
- The locale-formatted clock reading stored in a history entry is an opaque
  string `now`.
- The `Date.now()` player id is an opaque integer `id`.

The model follows the code's behaviour where it is more specific than the
game's own description:

- Only the space character `' '` counts as a blank for the win test and the
  reveals. The normalisation, however, keeps every character of JavaScript's
  `\s` class, so a tab left inside a phrase must be revealed like a letter.
- The normalisation keeps all whitespace, not only spaces.
- Accents are not stripped. NFD decomposition is not modelled, and a non-ASCII
  letter becomes a space.

## Model

| member | source | states |
|---|---|---|
| Text.Trim | games/hangman/script.js:167 | `trim` keeps the slice between the leading and trailing whitespace; the kept slice neither starts nor ends with whitespace, and only whitespace is dropped on either side |
| Text.TrimIdempotent | games/hangman/script.js:167 | trimming a trimmed string changes nothing |
| Text.NormalizeChar | games/hangman/script.js:177-178 | one character after upper-casing and replacement: `A`-`Z` and whitespace are kept, lower-case ASCII letters become their upper case, anything else becomes a space |
| Text.Normalize | games/hangman/script.js:174-179 | the stored phrase holds only `A`-`Z` and whitespace, has no whitespace at either end, and is the slice of the character-wise normalised input that leaves only whitespace before and after it |
| Text.NormalizeIdempotent | games/hangman/script.js:174-179 | normalising a normalised phrase changes nothing |
| Board.CheckWin | games/hangman/script.js:311-318 | the scan answers true exactly when every non-space position is revealed |
| Board.MatchingPositions | games/hangman/script.js:226-230 | the loop collects exactly the positions holding the guessed letter |
| Board.RevealEverything | games/hangman/script.js:295-301 | the loop reveals exactly the non-space positions and marks exactly the non-space characters used, after which the win test holds |
| Board.Unrevealed | games/hangman/script.js:262-267 | the candidate list holds exactly the hidden non-space positions, in increasing order without repeats |
| Board.UnrevealedEmptyIffWon | games/hangman/script.js:269 | the candidate list is empty exactly when the phrase is solved, so the early return and the win test agree |
| Board.WonIffAllUsed | games/hangman/script.js:311-318 | when the shown positions are those of the used characters, the phrase is solved exactly when every distinct non-space character has been used |
| Game.ResetGame | games/hangman/script.js:190-202 | a new round has no errors, no used or shown letters, and is running; phrase, options, players and history are kept; it starts solved only when the phrase has no non-space position |
| Game.ApplySettings | games/hangman/script.js:166-188 | a phrase empty after trimming is refused with nothing changed; otherwise the normalised phrase, trimmed category and options are stored and a new round starts |
| Game.SymbolsOnlyPhraseStartsSolvedRound | games/hangman/script.js:167-179 | the phrase `123` passes the emptiness test, normalises to the empty phrase, and opens a running round that is already solved |
| Game.ApplyCheckedSettings | games/hangman/script.js:166-188 | with the emptiness test moved after the normalisation, an accepted phrase opens a running round that is not already solved |
| Game.EndRound | games/hangman/script.js:320-364 | the round stops; when the current player can be looked up, that player is credited and the round is logged with its outcome and error count; if players exist but the cursor designates none, the handler stops after the round flag and nothing is credited or logged |
| Game.GuessLetter | games/hangman/script.js:216-256 | an inactive round or a used letter changes nothing; otherwise the letter is used, and the phrase and the options are kept. A hit shows every occurrence, costs no error, keeps the turn and ends the round exactly when the phrase is solved. A miss shows nothing, costs an error only when errors count, ends the round exactly when the budget is spent, and otherwise passes the turn |
| Game.GuessIdempotent | games/hangman/script.js:216-219 | guessing the same letter twice is guessing it once |
| Game.GuessWinLogged | games/hangman/script.js:234-237 | a guess that solves the phrase credits a win to the current player and logs a won round with the errors made |
| Game.GuessLossLogged | games/hangman/script.js:238-251 | a guess that ends the round on a miss happens only with errors counted and the budget reached, credits a played round and logs a lost round with the final error count |
| Game.Chosen | games/hangman/script.js:271-272 | the random pick is a hidden non-space position |
| Game.EveryHiddenPositionDrawable | games/hangman/script.js:271-272 | every hidden non-space position is picked by some draw |
| Game.RevealRandomLetter | games/hangman/script.js:258-290 | inactive or solved rounds are unchanged; otherwise a hidden position is newly shown together with every occurrence of its character, that character becomes used, errors, turn, phrase and options stay, and the round ends exactly when the phrase is solved; a round so ended credits a win to the current player and is logged as won with the errors made |
| Game.RevealAllLetters | games/hangman/script.js:292-309 | an inactive round is unchanged; otherwise every non-space position is shown, every non-space character is used, phrase and options stay, the round ends as won, the current player is credited with a win, and the round is logged as a win with the current error count |
| Players.AddPlayer | games/hangman/script.js:480-500 | a name empty after trimming is refused; otherwise the player is appended with the trimmed name and zero tallies, earlier players and the turn are unchanged, and the cursor and tally invariants are kept |
| Players.IndexOfId | games/hangman/script.js:503 | `findIndex`: the first position holding the id, or -1 exactly when no player has it |
| Players.RemovePlayer | games/hangman/script.js:502-513 | an unknown id changes nothing; otherwise the first player with the id is cut out, the others keep their order, and the cursor stays unless it passed the end, in which case it returns to 0 |
| Players.NextPlayer | games/hangman/script.js:515-520 | with players the turn moves one place forward and wraps from the last to the first; without players nothing changes |
| Players.AdvanceMoves | games/hangman/script.js:515-520 | fewer turns than players move the cursor that many places forward, wrapping once |
| Players.EveryPlayerGetsTurn | games/hangman/script.js:515-520 | every player gets the turn within one turn of the table |
| Players.FullTurnReturns | games/hangman/script.js:515-520 | as many turns as there are players return the turn to the player who had it, with the list unchanged |
| Players.Credit | games/hangman/script.js:323-328 | the current player plays one more round and wins one more when the round is won; everyone else and the cursor are unchanged; no player gets more wins than rounds |
| History.AddToHistory | games/hangman/script.js:545-562 | the new entry goes in front, the earlier entries follow in order, and the log is cut at twenty |
| History.ClearHistory | games/hangman/script.js:564-568 | the log is empty |
| History.AddAllKeepsNewest | games/hangman/script.js:553-558 | after any number of rounds the log is the newest twenty, newest first, followed by the older log while room is left |
| Layout.Split | games/hangman/script.js:382 | `split(' ')` yields at least one word, and no word contains a space |
| Layout.JoinSplit | games/hangman/script.js:382 | joining the split words with single spaces gives the phrase back |
| Layout.SplitJoin | games/hangman/script.js:382 | splitting words joined with single spaces gives the words back |
| Layout.PackRows | games/hangman/script.js:383-409 | the packing loop keeps the words in order in non-empty rows; a row is wider than 14 only when it holds one long word, and each row ends only because the next word would not fit on it |
| Layout.GreedyUnique | games/hangman/script.js:383-409 | those conditions determine the rows: two packings of the same words that satisfy them are equal |
| Layout.RowsSpellPhrase | games/hangman/script.js:415-450 | the rows of a greedy packing of the phrase's words, each shown as its words joined by single spaces and separated from the next row by one space, spell the phrase |
| Layout.RowStarts | games/hangman/script.js:415-450 | the character counter, advanced over each row's text and over one space between rows, starts every row at the position its text has in the joined text |
| Layout.DrawBoard | games/hangman/script.js:382-450 | for every character of every drawn row, the phrase position the display checks for being revealed holds exactly that character |
| Session.StartValid | games/hangman/script.js:2-16 | the initial state satisfies every session invariant |
| Session.StepValid | games/hangman/script.js:95-107 | every handler the buttons and the letter field trigger, the settings handler as the game wires it included, keeps the invariants: valid cursor, wins within rounds, log within capacity, errors within budget, a running round never over budget, and the shown positions exactly those of the used characters |
| Session.RunValid | games/hangman/script.js:95-107 | any sequence of handlers keeps the invariants |
| Session.Reachable | games/hangman/script.js:320-364 | in every reachable state no player has more wins than rounds played, the turn designates a player when there is one, the log holds at most twenty rounds, errors stay within the budget, and the phrase counts as solved exactly when every distinct non-space character has been played |

## Left out

- The win and loss handlers run at once. The game runs them after a 500 ms
  delay, during which the round is still active, so a second click on "reveal
  all" can credit and log the same round twice. Timers are not modelled.
- DOM rendering is not modelled. This covers the modals, the grid cells, the
  player and history lists, and the category and error displays.
- The vertical and horizontal centring of the rows, the cell index
  arithmetic, and the rows and cells that fall outside the 14 by 4 grid are
  not modelled. These only decide where a cell is drawn. Which phrase position
  the cell stands for is modelled, by `Layout.DrawBoard`.
- The sound synthesis and confetti are not modelled. `soundEnabled` is stored
  but has no effect on the state.
- Saving to and loading from `localStorage` is not modelled, including the
  defaults that loading applies. The session starts from the fresh state.
- Text.Normalize upper-cases ASCII letters only and works on whole Unicode
  characters, so three things the game does to non-ASCII text are not
  modelled:
  - the NFD decomposition and accent stripping: accented letters and other
    non-ASCII characters that are not whitespace become spaces instead of
    their base letter;
  - `toUpperCase` turning some non-ASCII letters into ASCII ones: `ß` becomes
    `SS`, which also changes the length, and `ı` becomes `I`, `ſ` becomes `S`,
    `ﬁ` becomes `FI`; the model turns each of them into one space;
  - the replacement regex has no `u` flag, so it replaces each UTF-16 half of a
    character outside the Basic Multilingual Plane, such as an emoji, and
    writes two spaces where the model writes one.
- The letter field's filtering, which upper-cases and keeps `A`-`Z` only, and
  `submitLetter`'s single-character check are not modelled. `GuessLetter`
  accepts any character, as `guessLetter` itself does.
- `parseInt` of the slider value is not modelled. The error budget is a
  natural number. Session.Sane requires it to be at least 1, as the slider's
  range does.
- `renderPlayers` and `renderHistory` only draw, so they are not modelled.
- Game.EndRound: when players exist and the cursor is out of range, the game
  throws on the player lookup. The model instead returns the state with only
  the round flag cleared, which is what the game leaves behind. The session
  invariants show that this state is unreachable.
- The wheel game and the site's root `script.js` are not part of this model.

## Findings

| source | as written | input that shows it | evidently intended | confidence | as-written member | corrected member |
|---|---|---|---|---|---|---|
| games/hangman/script.js:167-179 | the emptiness check runs on the trimmed input, before the normalisation turns symbols into spaces and trims again | phrase `123` | refuse a phrase that normalises to nothing, as an empty phrase is refused | medium, not executed | Game.SymbolsOnlyPhraseStartsSolvedRound | Game.ApplyCheckedSettings |

With the phrase `123`, the game opens a running round on an empty board. The
round counts as solved before any guess, but the win test runs only after a
hit or a reveal. Every guess is a miss, so guessing can only lose the round.
The session model, `Session.Step`, runs the settings handler as the game
wires it, so this round is among the states `Session.Reachable` covers.
