/** The round engine of the word game: the one state record every handler
    changes, and the transitions the buttons and the letter field trigger.
    The end-of-round handlers run at once here, where the game defers them by
    half a second. */
module Game {
  import Text
  import Board
  import Players
  import History

  datatype State = State(
    phrase: string,
    category: string,
    maxErrors: nat,
    currentErrors: nat,
    errorsEnabled: bool,
    usedLetters: set<char>,
    revealedLetters: set<nat>,
    roster: Players.Roster,
    history: seq<History.Entry>,
    soundEnabled: bool,
    gameActive: bool)

  /** The error budget a fresh game starts with. */
  const DefaultMaxErrors: nat := 6

  /** The state the page starts from before anything is loaded: no phrase,
      no players, no history, no round in progress. */
  const Start: State := State([], [], DefaultMaxErrors, 0, true, {}, {}, Players.Empty, [], true, false)

  /** `checkWin`: every non-blank position of the phrase is shown. */
  predicate Won(s: State)
  {
    Board.AllRevealed(s.phrase, s.revealedLetters)
  }

  /** A new round on the same phrase: no errors, no letters used or shown,
      the round running; phrase, settings, players and history stay. */
  function ResetGame(s: State): (s': State)
    ensures s'.gameActive && s'.currentErrors == 0
    ensures s'.usedLetters == {} && s'.revealedLetters == {}
    ensures s'.phrase == s.phrase && s'.category == s.category
    ensures s'.maxErrors == s.maxErrors && s'.errorsEnabled == s.errorsEnabled
    ensures s'.soundEnabled == s.soundEnabled
    ensures s'.roster == s.roster && s'.history == s.history
    ensures Won(s') <==> Board.NonBlankPositions(s.phrase) == {}
  {
    var s' := s.(currentErrors := 0, usedLetters := {}, revealedLetters := {}, gameActive := true);
    Board.NothingShown(s.phrase);
    s'
  }

  /** Applying the settings form: a phrase that is empty once trimmed is
      refused and nothing changes; otherwise the normalised phrase, the
      trimmed category and the options are stored and a new round starts. */
  function ApplySettings(s: State, rawPhrase: string, rawCategory: string, maxErrors: nat,
                         errorsEnabled: bool, soundEnabled: bool): (s': State)
    ensures Text.Trim(rawPhrase) == [] ==> s' == s
    ensures Text.Trim(rawPhrase) != [] ==>
              && s'.phrase == Text.Normalize(Text.Trim(rawPhrase))
              && s'.category == Text.Trim(rawCategory)
              && s'.maxErrors == maxErrors && s'.errorsEnabled == errorsEnabled
              && s'.soundEnabled == soundEnabled
              && s'.gameActive && s'.currentErrors == 0
              && s'.usedLetters == {} && s'.revealedLetters == {}
              && s'.roster == s.roster && s'.history == s.history
  {
    var phrase := Text.Trim(rawPhrase);
    if phrase == [] then s
    else
      ResetGame(s.(phrase := Text.Normalize(phrase), category := Text.Trim(rawCategory),
                   maxErrors := maxErrors, errorsEnabled := errorsEnabled,
                   soundEnabled := soundEnabled))
  }

  /** A phrase made only of characters the normalisation turns into spaces
      passes the emptiness test, which runs before the normalisation, and
      opens a round on an empty board: solved before any guess, and every
      guess is a miss. */
  lemma SymbolsOnlyPhraseStartsSolvedRound()
    ensures var s' := ApplySettings(Start, "123", [], DefaultMaxErrors, true, true);
            s'.gameActive && s'.phrase == [] && Won(s')
  {
    assert Text.Trim("123") == "123" by {
      assert Text.Lead("123") == 0;
      assert Text.Tail("123") == 3;
    }
    var m := Text.NormalizeChars("123");
    assert m == "   " by {
      assert m[0] == Text.NormalizeChar('1');
    }
    assert Text.Lead(m) == 3;
  }

  /** The settings form with the emptiness test applied to the normalised
      phrase: a phrase that normalises to nothing is refused, and an accepted
      phrase opens a round that still has something to guess. */
  function ApplyCheckedSettings(s: State, rawPhrase: string, rawCategory: string, maxErrors: nat,
                                errorsEnabled: bool, soundEnabled: bool): (s': State)
    ensures Text.Normalize(Text.Trim(rawPhrase)) == [] ==> s' == s
    ensures Text.Normalize(Text.Trim(rawPhrase)) != [] ==>
              && s' == ApplySettings(s, rawPhrase, rawCategory, maxErrors, errorsEnabled, soundEnabled)
              && s'.gameActive && !Won(s')
  {
    var phrase := Text.Normalize(Text.Trim(rawPhrase));
    if phrase == [] then s
    else
      var s' := ApplySettings(s, rawPhrase, rawCategory, maxErrors, errorsEnabled, soundEnabled);
      assert !Won(s') by {
        assert phrase[0] != Board.Blank;
        assert 0 in Board.NonBlankPositions(phrase);
        Board.NothingShown(phrase);
      }
      s'
  }

  /** The end of a round, won or lost: the round stops, the current player
      is credited and the round is logged with the errors made. When players
      exist but the cursor designates none, the handler fails on the player
      lookup after stopping the round, so nothing is credited or logged. */
  function EndRound(s: State, won: bool, now: string): (s': State)
    ensures !s'.gameActive
    ensures s'.phrase == s.phrase && s'.category == s.category
    ensures s'.maxErrors == s.maxErrors && s'.errorsEnabled == s.errorsEnabled
    ensures s'.soundEnabled == s.soundEnabled && s'.currentErrors == s.currentErrors
    ensures s'.usedLetters == s.usedLetters && s'.revealedLetters == s.revealedLetters
    ensures s'.roster.cursor == s.roster.cursor && |s'.roster.players| == |s.roster.players|
    ensures Players.CursorInRange(s.roster) ==>
              && s'.roster == Players.Credit(s.roster, won)
              && s'.history == History.AddToHistory(s.history, History.Entry(s.phrase, won, s.currentErrors, now))
    ensures !Players.CursorInRange(s.roster) ==> s'.roster == s.roster && s'.history == s.history
  {
    if Players.CursorInRange(s.roster) then
      s.(gameActive := false,
         roster := Players.Credit(s.roster, won),
         history := History.AddToHistory(s.history, History.Entry(s.phrase, won, s.currentErrors, now)))
    else
      s.(gameActive := false)
  }

  /** `handleWin`. */
  function HandleWin(s: State, now: string): State
  {
    EndRound(s, true, now)
  }

  /** `handleLoss`. */
  function HandleLoss(s: State, now: string): State
  {
    EndRound(s, false, now)
  }

  /** Guessing a letter. A guess while no round runs, or of a letter already
      used, is ignored. Otherwise the letter becomes used; a letter of the
      phrase shows all its positions and wins the round when nothing is left
      hidden; any other letter costs an error when errors count, and either
      loses the round once the budget is spent or passes the turn. */
  function GuessLetter(s: State, letter: char, now: string): (s': State)
    ensures !s.gameActive || letter in s.usedLetters ==> s' == s
    ensures s.gameActive && letter !in s.usedLetters ==>
              && s'.usedLetters == s.usedLetters + {letter}
              && s'.phrase == s.phrase && s'.category == s.category
              && s'.maxErrors == s.maxErrors && s'.errorsEnabled == s.errorsEnabled
              && s'.soundEnabled == s.soundEnabled
              && |s'.roster.players| == |s.roster.players|
    ensures s.gameActive && letter !in s.usedLetters && letter in s.phrase ==>
              && s'.revealedLetters == s.revealedLetters + Board.Occurrences(s.phrase, letter)
              && s'.currentErrors == s.currentErrors
              && s'.roster.cursor == s.roster.cursor
              && (s'.gameActive <==> !Board.AllRevealed(s.phrase, s'.revealedLetters))
              && (s'.gameActive ==> s'.roster == s.roster && s'.history == s.history)
    ensures s.gameActive && letter !in s.usedLetters && letter !in s.phrase ==>
              && s'.revealedLetters == s.revealedLetters
              && s'.currentErrors == (if s.errorsEnabled then s.currentErrors + 1 else s.currentErrors)
              && (s'.gameActive <==> !(s.errorsEnabled && s'.currentErrors >= s.maxErrors))
              && (s'.gameActive ==> s'.roster == Players.NextPlayer(s.roster) && s'.history == s.history)
              && (!s'.gameActive ==> s'.roster.cursor == s.roster.cursor)
  {
    if !s.gameActive || letter in s.usedLetters then s
    else
      var used := s.usedLetters + {letter};
      if letter in s.phrase then
        var s1 := s.(usedLetters := used,
                     revealedLetters := s.revealedLetters + Board.Occurrences(s.phrase, letter));
        if Won(s1) then HandleWin(s1, now) else s1
      else
        var errors := if s.errorsEnabled then s.currentErrors + 1 else s.currentErrors;
        var s1 := s.(usedLetters := used, currentErrors := errors);
        if s.errorsEnabled && errors >= s.maxErrors then HandleLoss(s1, now)
        else s1.(roster := Players.NextPlayer(s.roster))
  }

  /** A repeated guess changes nothing: guessing the same letter twice is
      guessing it once. */
  lemma GuessIdempotent(s: State, letter: char, now: string, later: string)
    ensures GuessLetter(GuessLetter(s, letter, now), letter, later) == GuessLetter(s, letter, now)
  {
  }

  /** A won round by guessing is credited and logged as a win with the
      errors made so far. */
  lemma GuessWinLogged(s: State, letter: char, now: string)
    requires s.gameActive && letter !in s.usedLetters && letter in s.phrase
    requires Players.CursorInRange(s.roster)
    requires !GuessLetter(s, letter, now).gameActive
    ensures GuessLetter(s, letter, now).history ==
              History.AddToHistory(s.history, History.Entry(s.phrase, true, s.currentErrors, now))
    ensures GuessLetter(s, letter, now).roster == Players.Credit(s.roster, true)
  {
  }

  /** A lost round is credited and logged as a loss with the full error
      count. */
  lemma GuessLossLogged(s: State, letter: char, now: string)
    requires s.gameActive && letter !in s.usedLetters && letter !in s.phrase
    requires Players.CursorInRange(s.roster)
    requires !GuessLetter(s, letter, now).gameActive
    ensures s.errorsEnabled && s.currentErrors + 1 >= s.maxErrors
    ensures GuessLetter(s, letter, now).history ==
              History.AddToHistory(s.history, History.Entry(s.phrase, false, s.currentErrors + 1, now))
    ensures GuessLetter(s, letter, now).roster == Players.Credit(s.roster, false)
  {
  }

  /** The position the random reveal picks: the caller's draw, reduced to
      the number of hidden positions, selects one of them in phrase order. */
  function Chosen(s: State, draw: nat): (k: nat)
    requires |Board.Unrevealed(s.phrase, s.revealedLetters)| > 0
    ensures Board.IsHidden(s.phrase, s.revealedLetters, k)
  {
    var hidden := Board.Unrevealed(s.phrase, s.revealedLetters);
    assert hidden[draw % |hidden|] in hidden;
    hidden[draw % |hidden|]
  }

  /** A draw below the count selects by itself. */
  lemma SmallDraw(j: nat, n: nat)
    requires j < n
    ensures j % n == j
  {
  }

  /** Every hidden position is a possible pick: some draw selects it. */
  lemma EveryHiddenPositionDrawable(s: State, k: nat)
    requires Board.IsHidden(s.phrase, s.revealedLetters, k)
    ensures |Board.Unrevealed(s.phrase, s.revealedLetters)| > 0
    ensures exists draw: nat :: Chosen(s, draw) == k
  {
    var hidden := Board.Unrevealed(s.phrase, s.revealedLetters);
    assert k in hidden;
    var j :| 0 <= j < |hidden| && hidden[j] == k;
    SmallDraw(j, |hidden|);
    assert Chosen(s, j) == k;
  }

  /** Revealing a random letter: ignored while no round runs or when nothing
      is hidden. Otherwise the character at the chosen hidden position is
      shown everywhere it occurs and becomes used; errors and the turn are
      untouched, and the round is won, credited and logged when nothing is
      left hidden. */
  function RevealRandomLetter(s: State, draw: nat, now: string): (s': State)
    ensures !s.gameActive || Won(s) ==> s' == s
    ensures s.gameActive && !Won(s) ==>
              |Board.Unrevealed(s.phrase, s.revealedLetters)| > 0 &&
              var k := Chosen(s, draw);
              && k !in s.revealedLetters && k in s'.revealedLetters
              && s'.revealedLetters == s.revealedLetters + Board.Occurrences(s.phrase, s.phrase[k])
              && s'.usedLetters == s.usedLetters + {s.phrase[k]}
              && s'.currentErrors == s.currentErrors
              && s'.roster.cursor == s.roster.cursor
              && s'.phrase == s.phrase && s'.category == s.category
              && s'.maxErrors == s.maxErrors && s'.errorsEnabled == s.errorsEnabled
              && s'.soundEnabled == s.soundEnabled
              && (s'.gameActive <==> !Board.AllRevealed(s.phrase, s'.revealedLetters))
              && (s'.gameActive ==> s'.roster == s.roster && s'.history == s.history)
              && (!s'.gameActive && Players.CursorInRange(s.roster) ==>
                    && s'.roster == Players.Credit(s.roster, true)
                    && s'.history == History.AddToHistory(s.history, History.Entry(s.phrase, true, s.currentErrors, now)))
  {
    Board.UnrevealedEmptyIffWon(s.phrase, s.revealedLetters);
    var hidden := Board.Unrevealed(s.phrase, s.revealedLetters);
    if !s.gameActive || |hidden| == 0 then s
    else
      var k := Chosen(s, draw);
      var c := s.phrase[k];
      var s1 := s.(revealedLetters := s.revealedLetters + Board.Occurrences(s.phrase, c),
                   usedLetters := s.usedLetters + {c});
      if Won(s1) then HandleWin(s1, now) else s1
  }

  /** Revealing the whole phrase: ignored while no round runs; otherwise
      every non-blank position is shown, every non-blank character is used,
      and the round is won, credited to the current player and logged. */
  function RevealAllLetters(s: State, now: string): (s': State)
    ensures !s.gameActive ==> s' == s
    ensures s.gameActive ==>
              && Board.AllRevealed(s'.phrase, s'.revealedLetters)
              && s'.revealedLetters == s.revealedLetters + Board.NonBlankPositions(s.phrase)
              && s'.usedLetters == s.usedLetters + Board.NonBlankChars(s.phrase)
              && !s'.gameActive
              && s'.currentErrors == s.currentErrors && s'.phrase == s.phrase
              && s'.category == s.category && s'.soundEnabled == s.soundEnabled
              && s'.maxErrors == s.maxErrors && s'.errorsEnabled == s.errorsEnabled
              && s'.roster.cursor == s.roster.cursor
              && (Players.CursorInRange(s.roster) ==>
                    && s'.roster == Players.Credit(s.roster, true)
                    && s'.history == History.AddToHistory(s.history, History.Entry(s.phrase, true, s.currentErrors, now)))
  {
    if !s.gameActive then s
    else
      HandleWin(s.(revealedLetters := s.revealedLetters + Board.NonBlankPositions(s.phrase),
                   usedLetters := s.usedLetters + Board.NonBlankChars(s.phrase)), now)
  }
}
