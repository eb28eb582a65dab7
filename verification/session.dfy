/** A whole session of the word game: the page starts from the fresh state
    and the user triggers one handler after another. Every state reached this
    way keeps the invariants below; in particular no player ever has more wins
    than rounds played, the turn always designates a player, and the log never
    exceeds its capacity. */
module Session {
  import Board
  import Players
  import History
  import Game

  /** What the user can do: apply the settings form, start a new round
      (also what closing the win or loss dialog does), submit a letter, ask
      for a random letter or for the whole phrase, add or remove a player,
      and empty the log. Clock readings, player ids and random draws come
      with the event. */
  datatype Event =
    | ApplySettings(rawPhrase: string, rawCategory: string, maxErrors: nat,
                    errorsEnabled: bool, soundEnabled: bool)
    | NewRound
    | Guess(letter: char, now: string)
    | RevealLetter(draw: nat, now: string)
    | RevealAll(now: string)
    | AddPlayer(rawName: string, id: int)
    | RemovePlayer(id: int)
    | ClearHistory

  /** The handler an event runs. */
  function Step(s: Game.State, e: Event): Game.State
  {
    match e
    case ApplySettings(p, c, m, ee, se) => Game.ApplySettings(s, p, c, m, ee, se)
    case NewRound => Game.ResetGame(s)
    case Guess(letter, now) => Game.GuessLetter(s, letter, now)
    case RevealLetter(draw, now) => Game.RevealRandomLetter(s, draw, now)
    case RevealAll(now) => Game.RevealAllLetters(s, now)
    case AddPlayer(name, id) => s.(roster := Players.AddPlayer(s.roster, name, id))
    case RemovePlayer(id) => s.(roster := Players.RemovePlayer(s.roster, id))
    case ClearHistory => s.(history := History.ClearHistory())
  }

  /** The state after the events, in order. */
  function Run(s: Game.State, es: seq<Event>): Game.State
    decreases |es|
  {
    if |es| == 0 then s else Run(Step(s, es[0]), es[1..])
  }

  /** The error budget slider never goes below one error. */
  predicate Sane(e: Event)
  {
    e.ApplySettings? ==> e.maxErrors >= 1
  }

  /** The invariants of every reachable state. */
  predicate Valid(s: Game.State)
  {
    && Players.CursorOk(s.roster)
    && Players.TalliesOk(s.roster)
    && |s.history| <= History.Capacity
    && s.maxErrors >= 1
    && (s.errorsEnabled ==> s.currentErrors <= s.maxErrors)
    && (s.gameActive && s.errorsEnabled ==> s.currentErrors < s.maxErrors)
    && s.revealedLetters == Board.ShownBy(s.phrase, s.usedLetters)
  }

  lemma StartValid()
    ensures Valid(Game.Start)
  {
  }

  lemma GuessValid(s: Game.State, letter: char, now: string)
    requires Valid(s)
    ensures Valid(Game.GuessLetter(s, letter, now))
  {
    if s.gameActive && letter !in s.usedLetters {
      var used := s.usedLetters + {letter};
      if letter in s.phrase {
        assert Board.ShownBy(s.phrase, used) ==
               Board.ShownBy(s.phrase, s.usedLetters) + Board.Occurrences(s.phrase, letter);
      } else {
        assert Board.ShownBy(s.phrase, used) == Board.ShownBy(s.phrase, s.usedLetters);
      }
    }
  }

  lemma RevealLetterValid(s: Game.State, draw: nat, now: string)
    requires Valid(s)
    ensures Valid(Game.RevealRandomLetter(s, draw, now))
  {
    if s.gameActive && !Game.Won(s) {
      Board.UnrevealedEmptyIffWon(s.phrase, s.revealedLetters);
      var c := s.phrase[Game.Chosen(s, draw)];
      assert Board.ShownBy(s.phrase, s.usedLetters + {c}) ==
             Board.ShownBy(s.phrase, s.usedLetters) + Board.Occurrences(s.phrase, c);
    }
  }

  lemma RevealAllValid(s: Game.State, now: string)
    requires Valid(s)
    ensures Valid(Game.RevealAllLetters(s, now))
  {
    if s.gameActive {
      var more := Board.NonBlankChars(s.phrase);
      forall i: nat | i < |s.phrase| && s.phrase[i] in more
        ensures i in Board.NonBlankPositions(s.phrase)
      {
        var j :| 0 <= j < |s.phrase| && s.phrase[j] != Board.Blank && s.phrase[j] == s.phrase[i];
      }
      forall i: nat | i in Board.NonBlankPositions(s.phrase)
        ensures s.phrase[i] in more
      {
      }
      assert Board.ShownBy(s.phrase, s.usedLetters + more) ==
             Board.ShownBy(s.phrase, s.usedLetters) + Board.NonBlankPositions(s.phrase);
    }
  }

  /** Every handler keeps the invariants. */
  lemma StepValid(s: Game.State, e: Event)
    requires Valid(s) && Sane(e)
    ensures Valid(Step(s, e))
  {
    match e
    case Guess(letter, now) => GuessValid(s, letter, now);
    case RevealLetter(draw, now) => RevealLetterValid(s, draw, now);
    case RevealAll(now) => RevealAllValid(s, now);
    case _ =>
  }

  /** Any sequence of handlers keeps the invariants. */
  lemma {:induction false} RunValid(s: Game.State, es: seq<Event>)
    requires Valid(s)
    requires forall k :: 0 <= k < |es| ==> Sane(es[k])
    ensures Valid(Run(s, es))
    decreases |es|
  {
    if |es| > 0 {
      StepValid(s, es[0]);
      RunValid(Step(s, es[0]), es[1..]);
    }
  }

  /** In every state a session reaches, no player has won more rounds than
      they played, the turn designates a player whenever there is one, the
      log holds at most twenty rounds, with errors counted the error count
      stays within the budget, and the phrase counts as solved exactly when
      every distinct non-blank character of it has been played. */
  lemma Reachable(es: seq<Event>)
    requires forall k :: 0 <= k < |es| ==> Sane(es[k])
    ensures var s := Run(Game.Start, es);
            && (forall k :: 0 <= k < |s.roster.players| ==>
                  s.roster.players[k].wins <= s.roster.players[k].gamesPlayed)
            && (|s.roster.players| > 0 ==> s.roster.cursor < |s.roster.players|)
            && |s.history| <= History.Capacity
            && (s.errorsEnabled ==> s.currentErrors <= s.maxErrors)
            && (Game.Won(s) <==> Board.NonBlankChars(s.phrase) <= s.usedLetters)
  {
    StartValid();
    RunValid(Game.Start, es);
    var s := Run(Game.Start, es);
    Board.WonIffAllUsed(s.phrase, s.usedLetters);
  }
}
