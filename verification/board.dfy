/** The phrase board of the word game: which positions of the phrase a
    letter occupies, which positions still have to be shown, and the win test.
    Only the space character counts as a blank here, although the phrase
    normalisation keeps every kind of whitespace: a tab left inside a phrase is
    a position that has to be revealed like a letter. */
module Board {

  /** The one character the board treats as a gap between words. */
  const Blank: char := ' '

  /** The positions of `phrase` holding `c`. */
  function Occurrences(phrase: string, c: char): set<nat>
  {
    set i: nat | i < |phrase| && phrase[i] == c
  }

  /** The positions of `phrase` that are not blanks. */
  function NonBlankPositions(phrase: string): set<nat>
  {
    set i: nat | i < |phrase| && phrase[i] != Blank
  }

  /** The distinct characters of `phrase` other than the blank. */
  function NonBlankChars(phrase: string): set<char>
  {
    set i | 0 <= i < |phrase| && phrase[i] != Blank :: phrase[i]
  }

  /** Position `i` is a non-blank position that is not shown yet. */
  predicate IsHidden(phrase: string, revealed: set<nat>, i: nat)
  {
    i < |phrase| && phrase[i] != Blank && i !in revealed
  }

  /** The win condition: every non-blank position is shown. */
  predicate AllRevealed(phrase: string, revealed: set<nat>)
  {
    forall i: nat :: i < |phrase| && phrase[i] != Blank ==> i in revealed
  }

  /** With nothing shown, the phrase counts as solved exactly when it has
      no non-blank position. */
  lemma NothingShown(phrase: string)
    ensures AllRevealed(phrase, {}) <==> NonBlankPositions(phrase) == {}
  {
    if NonBlankPositions(phrase) != {} {
      var i :| i in NonBlankPositions(phrase);
      assert i < |phrase| && phrase[i] != Blank;
    }
  }

  /** The positions that show once the characters `used` have been played:
      every position holding one of them. */
  function ShownBy(phrase: string, used: set<char>): set<nat>
  {
    set i: nat | i < |phrase| && phrase[i] in used
  }

  /** When exactly the positions of the used characters show, the phrase is
      solved exactly when every distinct non-blank character was used. */
  lemma WonIffAllUsed(phrase: string, used: set<char>)
    ensures AllRevealed(phrase, ShownBy(phrase, used)) <==> NonBlankChars(phrase) <= used
  {
    if AllRevealed(phrase, ShownBy(phrase, used)) {
      forall c | c in NonBlankChars(phrase)
        ensures c in used
      {
        var i :| 0 <= i < |phrase| && phrase[i] != Blank && phrase[i] == c;
        assert i in ShownBy(phrase, used);
      }
    }
    if NonBlankChars(phrase) <= used {
      forall i: nat | i < |phrase| && phrase[i] != Blank
        ensures i in ShownBy(phrase, used)
      {
        assert phrase[i] in NonBlankChars(phrase);
      }
    }
  }

  /** The hidden positions below `n`, in increasing order. */
  function HiddenBelow(phrase: string, revealed: set<nat>, n: nat): (u: seq<nat>)
    requires n <= |phrase|
    ensures forall k: nat :: k in u <==> k < n && IsHidden(phrase, revealed, k)
    ensures forall j :: 0 <= j < |u| ==> u[j] < n
    ensures forall j, k :: 0 <= j < k < |u| ==> u[j] < u[k]
    ensures |u| <= n
  {
    if n == 0 then []
    else
      var u := HiddenBelow(phrase, revealed, n - 1);
      if IsHidden(phrase, revealed, n - 1) then u + [n - 1] else u
  }

  /** The list of hidden positions the random reveal draws from, in phrase
      order. */
  function Unrevealed(phrase: string, revealed: set<nat>): (u: seq<nat>)
    ensures forall k: nat :: k in u <==> IsHidden(phrase, revealed, k)
    ensures forall j, k :: 0 <= j < k < |u| ==> u[j] < u[k]
  {
    HiddenBelow(phrase, revealed, |phrase|)
  }

  /** Nothing is left to draw exactly when the phrase is fully shown. */
  lemma UnrevealedEmptyIffWon(phrase: string, revealed: set<nat>)
    ensures |Unrevealed(phrase, revealed)| == 0 <==> AllRevealed(phrase, revealed)
  {
    var u := Unrevealed(phrase, revealed);
    if |u| > 0 {
      assert IsHidden(phrase, revealed, u[0]);
    }
    if !AllRevealed(phrase, revealed) {
      var i: nat :| i < |phrase| && phrase[i] != Blank && i !in revealed;
      assert i in u;
    }
  }

  /** The win test as the game runs it: scan the phrase and stop at the
      first non-blank position that is not shown. */
  method CheckWin(phrase: string, revealed: set<nat>) returns (won: bool)
    ensures won <==> AllRevealed(phrase, revealed)
  {
    var i := 0;
    while i < |phrase|
      invariant 0 <= i <= |phrase|
      invariant forall k: nat :: k < i && phrase[k] != Blank ==> k in revealed
    {
      if phrase[i] != Blank && i !in revealed {
        return false;
      }
      i := i + 1;
    }
    return true;
  }

  /** The positions a correct guess shows, collected by scanning the phrase. */
  method MatchingPositions(phrase: string, c: char) returns (found: set<nat>)
    ensures found == Occurrences(phrase, c)
  {
    found := {};
    var i := 0;
    while i < |phrase|
      invariant 0 <= i <= |phrase|
      invariant found == set k: nat | k < i && phrase[k] == c
    {
      if phrase[i] == c {
        found := found + {i};
      }
      i := i + 1;
    }
  }

  /** The reveal-everything scan: shows every non-blank position and marks
      its character as used. */
  method RevealEverything(phrase: string, revealed: set<nat>, used: set<char>)
    returns (revealed': set<nat>, used': set<char>)
    ensures revealed' == revealed + NonBlankPositions(phrase)
    ensures used' == used + NonBlankChars(phrase)
    ensures AllRevealed(phrase, revealed')
  {
    revealed', used' := revealed, used;
    var i := 0;
    while i < |phrase|
      invariant 0 <= i <= |phrase|
      invariant revealed' == revealed + set k: nat | k < i && phrase[k] != Blank
      invariant used' == used + set k | 0 <= k < i && phrase[k] != Blank :: phrase[k]
    {
      if phrase[i] != Blank {
        revealed' := revealed' + {i};
        used' := used' + {phrase[i]};
      }
      i := i + 1;
    }
  }
}
