/** The players of the word game and the round-robin cursor that says whose
    turn it is. Player ids are creation timestamps in the game; here they are
    opaque integers supplied by the caller. */
module Players {
  import Text

  datatype Player = Player(id: int, name: string, wins: nat, gamesPlayed: nat)

  /** The player list and the index of the player whose turn it is. */
  datatype Roster = Roster(players: seq<Player>, cursor: nat)

  /** The cursor designates a player, or is 0 when there is nobody. */
  predicate CursorOk(r: Roster)
  {
    if |r.players| == 0 then r.cursor == 0 else r.cursor < |r.players|
  }

  /** The end-of-round handlers can look the current player up: either there
      are no players or the cursor designates one. */
  predicate CursorInRange(r: Roster)
  {
    |r.players| == 0 || r.cursor < |r.players|
  }

  /** No player has more wins than rounds played. */
  predicate TalliesOk(r: Roster)
  {
    forall k :: 0 <= k < |r.players| ==> r.players[k].wins <= r.players[k].gamesPlayed
  }

  /** The roster of a fresh game. */
  const Empty: Roster := Roster([], 0)

  /** Adding a player: the trimmed name must not be empty; the newcomer is
      appended with no wins and no rounds, and the turn does not move. */
  function AddPlayer(r: Roster, rawName: string, id: int): (r': Roster)
    ensures Text.Trim(rawName) == [] ==> r' == r
    ensures Text.Trim(rawName) != [] ==>
              && |r'.players| == |r.players| + 1
              && r'.players[..|r.players|] == r.players
              && r'.players[|r.players|] == Player(id, Text.Trim(rawName), 0, 0)
              && r'.cursor == r.cursor
    ensures CursorOk(r) ==> CursorOk(r')
    ensures TalliesOk(r) ==> TalliesOk(r')
  {
    var name := Text.Trim(rawName);
    if name == [] then r
    else Roster(r.players + [Player(id, name, 0, 0)], r.cursor)
  }

  /** `findIndex` over `players[from..]`: the first position at or after
      `from` whose id is `id`, or -1. */
  function FindFrom(players: seq<Player>, id: int, from: nat): (i: int)
    requires from <= |players|
    ensures i == -1 || from <= i < |players|
    ensures i == -1 <==> forall k :: from <= k < |players| ==> players[k].id != id
    ensures i != -1 ==> players[i].id == id
    ensures i != -1 ==> forall k :: from <= k < i ==> players[k].id != id
    decreases |players| - from
  {
    if from == |players| then -1
    else if players[from].id == id then from
    else FindFrom(players, id, from + 1)
  }

  /** The position of the first player with the given id, or -1. */
  function IndexOfId(players: seq<Player>, id: int): (i: int)
    ensures -1 <= i < |players|
    ensures i == -1 <==> forall k :: 0 <= k < |players| ==> players[k].id != id
    ensures i != -1 ==> players[i].id == id && forall k :: 0 <= k < i ==> players[k].id != id
  {
    FindFrom(players, id, 0)
  }

  /** Removing the first player with the given id; an unknown id changes
      nothing. When the removal leaves the cursor past the end it goes back
      to the first player. */
  function RemovePlayer(r: Roster, id: int): (r': Roster)
    ensures IndexOfId(r.players, id) == -1 ==> r' == r
    ensures IndexOfId(r.players, id) != -1 ==>
              var i := IndexOfId(r.players, id);
              && r'.players == r.players[..i] + r.players[i + 1..]
              && |r'.players| == |r.players| - 1
              && (r.cursor < |r'.players| ==> r'.cursor == r.cursor)
              && (r.cursor >= |r'.players| ==> r'.cursor == 0)
              && CursorOk(r')
    ensures CursorOk(r) ==> CursorOk(r')
    ensures TalliesOk(r) ==> TalliesOk(r')
  {
    var i := IndexOfId(r.players, id);
    if i == -1 then r
    else
      var players := r.players[..i] + r.players[i + 1..];
      assert forall k :: 0 <= k < |players| ==>
        players[k] == if k < i then r.players[k] else r.players[k + 1];
      Roster(players, if r.cursor >= |players| then 0 else r.cursor)
  }

  /** Passing the turn: one step forward, wrapping around; nothing happens
      without players. */
  function NextPlayer(r: Roster): (r': Roster)
    ensures r'.players == r.players
    ensures |r.players| == 0 ==> r' == r
    ensures |r.players| > 0 ==> r'.cursor < |r.players|
    ensures CursorOk(r) && |r.players| > 0 ==>
              r'.cursor == if r.cursor == |r.players| - 1 then 0 else r.cursor + 1
    ensures CursorOk(r) ==> CursorOk(r')
  {
    if |r.players| > 0 then r.(cursor := (r.cursor + 1) % |r.players|) else r
  }

  /** The turn passed `n` times. */
  function Advance(r: Roster, n: nat): Roster
  {
    if n == 0 then r else NextPlayer(Advance(r, n - 1))
  }

  /** Fewer than a full turn of the table moves the cursor `n` places
      forward, wrapping once past the last player. */
  lemma {:induction false} AdvanceMoves(r: Roster, n: nat)
    requires CursorOk(r) && |r.players| > 0 && n < |r.players|
    ensures Advance(r, n).players == r.players
    ensures Advance(r, n).cursor ==
              if r.cursor + n < |r.players| then r.cursor + n else r.cursor + n - |r.players|
  {
    if n > 0 {
      AdvanceMoves(r, n - 1);
    }
  }

  /** How many turns pass before player `k` has the turn. */
  function TurnsUntil(r: Roster, k: nat): (n: nat)
    requires CursorOk(r) && k < |r.players|
    ensures n < |r.players|
  {
    if k >= r.cursor then k - r.cursor else |r.players| - r.cursor + k
  }

  /** Every player gets the turn within one turn of the table: after
      `TurnsUntil(r, k)` turns it is player `k`'s. */
  lemma EveryPlayerGetsTurn(r: Roster, k: nat)
    requires CursorOk(r) && k < |r.players|
    ensures Advance(r, TurnsUntil(r, k)).cursor == k
  {
    AdvanceMoves(r, TurnsUntil(r, k));
  }

  /** After as many turns as there are players the turn is back with the
      player who had it. */
  lemma FullTurnReturns(r: Roster)
    requires CursorOk(r) && |r.players| > 0
    ensures Advance(r, |r.players|) == r
  {
    AdvanceMoves(r, |r.players| - 1);
  }

  /** The tally of a finished round: the current player plays one more
      round, and wins one more when the round was won. Everybody else, and the
      cursor, stay as they were. */
  function Credit(r: Roster, won: bool): (r': Roster)
    ensures |r'.players| == |r.players| && r'.cursor == r.cursor
    ensures forall k :: 0 <= k < |r.players| && k != r.cursor ==> r'.players[k] == r.players[k]
    ensures r.cursor < |r.players| ==>
              var p, p' := r.players[r.cursor], r'.players[r.cursor];
              && p'.id == p.id && p'.name == p.name
              && p'.gamesPlayed == p.gamesPlayed + 1
              && p'.wins == if won then p.wins + 1 else p.wins
    ensures TalliesOk(r) ==> TalliesOk(r')
  {
    if r.cursor < |r.players| then
      var p := r.players[r.cursor];
      var p' := p.(wins := if won then p.wins + 1 else p.wins, gamesPlayed := p.gamesPlayed + 1);
      r.(players := r.players[r.cursor := p'])
    else r
  }
}
