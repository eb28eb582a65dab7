/** How the board lays the phrase out: the phrase is cut at every space into
    words, and the words are packed greedily, in order, into rows of at most
    fourteen cells, a single space separating neighbours in a row. */
module Layout {
  import Seqs

  /** Cells in one row of the board. */
  const GridWidth: nat := 14

  /** The separator `split` cuts at and `join` puts back. */
  const Space: char := ' '

  /** A word as `split` produces it: no space inside. */
  predicate IsWord(w: string)
  {
    forall k :: 0 <= k < |w| ==> w[k] != Space
  }

  /** Every element is a word. */
  predicate AllWords(ws: seq<string>)
  {
    forall k :: 0 <= k < |ws| ==> IsWord(ws[k])
  }

  /** `join(' ')`: the words with one space between neighbours. */
  function Join(ws: seq<string>): string
  {
    if |ws| == 0 then []
    else if |ws| == 1 then ws[0]
    else Join(ws[..|ws| - 1]) + [Space] + ws[|ws| - 1]
  }

  /** `split(' ')`: the maximal space-free pieces between the spaces of `s`,
      including empty pieces around leading, trailing or repeated spaces. */
  function Split(s: string): (ws: seq<string>)
    ensures |ws| >= 1
    ensures AllWords(ws)
  {
    if |s| == 0 then [[]]
    else
      var ws := Split(s[..|s| - 1]);
      var c := s[|s| - 1];
      if c == Space then ws + [[]]
      else ws[..|ws| - 1] + [ws[|ws| - 1] + [c]]
  }

  lemma JoinSnoc(ws: seq<string>, w: string)
    requires |ws| > 0
    ensures Join(ws + [w]) == Join(ws) + [Space] + w
  {
    assert (ws + [w])[..|ws|] == ws;
  }

  /** Growing the last of several words grows the joined string at its end. */
  lemma JoinGrowSnoc(init: seq<string>, last: string, c: char)
    requires |init| > 0
    ensures Join(init + [last + [c]]) == Join(init + [last]) + [c]
  {
    JoinSnoc(init, last);
    JoinSnoc(init, last + [c]);
    Seqs.Associative(Join(init) + [Space], last, [c]);
  }

  /** `split` on a string that ends in `c`, in terms of the pieces before. */
  lemma SplitSnoc(p: string, c: char)
    ensures c == Space ==> Split(p + [c]) == Split(p) + [[]]
    ensures c != Space ==>
              var ws := Split(p);
              Split(p + [c]) == ws[..|ws| - 1] + [ws[|ws| - 1] + [c]]
  {
    assert (p + [c])[..|p|] == p;
  }

  /** Adding a character other than a space to the last piece adds it at
      the end of the joined string. */
  lemma JoinGrowLast(ws: seq<string>, c: char)
    requires |ws| > 1
    ensures Join(ws[..|ws| - 1] + [ws[|ws| - 1] + [c]]) == Join(ws) + [c]
  {
    Seqs.InitLast(ws);
    JoinGrowSnoc(ws[..|ws| - 1], ws[|ws| - 1], c);
  }

  /** Joining the pieces gives back the string that was split. */
  lemma {:induction false} JoinSplit(s: string)
    ensures Join(Split(s)) == s
  {
    if |s| > 0 {
      var p, c := s[..|s| - 1], s[|s| - 1];
      assert s == p + [c];
      JoinSplit(p);
      SplitSnoc(p, c);
      var ws := Split(p);
      if c == Space {
        JoinSnoc(ws, []);
      } else if |ws| == 1 {
        assert ws[..0] + [ws[0] + [c]] == [ws[0] + [c]];
      } else {
        JoinGrowLast(ws, c);
      }
    }
  }

  /** A word splits into itself. */
  lemma {:induction false} SplitWord(w: string)
    requires IsWord(w)
    ensures Split(w) == [w]
  {
    if |w| > 0 {
      SplitWord(w[..|w| - 1]);
      assert w[..|w| - 1] + [w[|w| - 1]] == w;
    }
  }

  /** Splitting after a space and a word yields the earlier pieces and the
      word. */
  lemma {:induction false} SplitAppend(x: string, w: string)
    requires IsWord(w)
    ensures Split(x + [Space] + w) == Split(x) + [w]
  {
    if |w| == 0 {
      assert x + [Space] + w == x + [Space];
      SplitSnoc(x, Space);
    } else {
      var w', c := w[..|w| - 1], w[|w| - 1];
      var p := x + [Space] + w';
      SplitAppend(x, w');
      assert w' + [c] == w;
      Seqs.Associative(x + [Space], w', [c]);
      SplitSnoc(p, c);
      var ws := Split(p);
      assert ws[..|ws| - 1] == Split(x);
    }
  }

  /** Splitting the joined words gives back the words. */
  lemma {:induction false} SplitJoin(ws: seq<string>)
    requires |ws| >= 1 && AllWords(ws)
    ensures Split(Join(ws)) == ws
  {
    if |ws| == 1 {
      SplitWord(ws[0]);
    } else {
      var init := ws[..|ws| - 1];
      SplitJoin(init);
      SplitAppend(Join(init), ws[|ws| - 1]);
      Seqs.InitLast(ws);
    }
  }

  /** A row of words fits the board width. */
  predicate Fits(row: seq<string>)
  {
    |Join(row)| <= GridWidth
  }

  /** The words of the rows, in order. */
  function Flatten(rows: seq<seq<string>>): seq<string>
  {
    if |rows| == 0 then [] else rows[0] + Flatten(rows[1..])
  }

  lemma {:induction false} FlattenSnoc(rows: seq<seq<string>>, row: seq<string>)
    ensures Flatten(rows + [row]) == Flatten(rows) + row
  {
    if |rows| > 0 {
      FlattenSnoc(rows[1..], row);
      assert (rows + [row])[1..] == rows[1..] + [row];
    }
  }

  /** The shape greedy packing gives its rows: none is empty, a row is
      wider than the board only when it is one long word, and a row ends only
      because the first word of the next one would not fit on it. */
  predicate Packed(rows: seq<seq<string>>)
  {
    && (forall k :: 0 <= k < |rows| ==> |rows[k]| > 0)
    && (forall k :: 0 <= k < |rows| ==> Fits(rows[k]) || |rows[k]| == 1)
    && (forall k :: 0 <= k < |rows| - 1 ==> !Fits(rows[k] + [rows[k + 1][0]]))
  }

  /** What greedy packing guarantees: the rows hold the words in order and
      have the packed shape. */
  predicate Greedy(words: seq<string>, rows: seq<seq<string>>)
  {
    Flatten(rows) == words && Packed(rows)
  }

  /** Closing a row keeps the packed shape when the row is not empty, fits
      or is a single word, and could not have taken its first word onto the
      previous row. */
  lemma PackedSnoc(rows: seq<seq<string>>, row: seq<string>)
    requires Packed(rows)
    requires |row| > 0 && (Fits(row) || |row| == 1)
    requires |rows| > 0 ==> !Fits(rows[|rows| - 1] + [row[0]])
    ensures Packed(rows + [row])
  {
    var r := rows + [row];
    assert forall k :: 0 <= k < |rows| ==> r[k] == rows[k];
  }

  /** The width of a row after one more word. */
  lemma WidthSnoc(row: seq<string>, w: string)
    ensures |Join(row + [w])| == if |row| == 0 then |w| else |Join(row)| + 1 + |w|
  {
    if |row| == 0 {
      assert row + [w] == [w];
    } else {
      JoinSnoc(row, w);
    }
  }

  /** What holds after the first `i` words were placed: the closed rows
      and the open row `current` hold them in order, the open row is empty
      only before the first word, `width` is its width, and closed rows have
      the packed shape, the last of them unable to take the open row's first
      word. */
  predicate PackInv(words: seq<string>, i: nat, rows: seq<seq<string>>, current: seq<string>, width: nat)
  {
    && i <= |words|
    && Flatten(rows) + current == words[..i]
    && (i > 0 <==> |current| > 0)
    && width == |Join(current)|
    && (|current| > 0 ==> Fits(current) || |current| == 1)
    && Packed(rows)
    && (|rows| > 0 ==> |current| > 0 && !Fits(rows[|rows| - 1] + [current[0]]))
  }

  /** The next word fits on the open row and joins it. */
  lemma PackOnto(words: seq<string>, i: nat, rows: seq<seq<string>>, current: seq<string>, width: nat)
    requires PackInv(words, i, rows, current, width) && i < |words|
    requires width + (if |current| > 0 then 1 else 0) + |words[i]| <= GridWidth
    ensures PackInv(words, i + 1, rows, current + [words[i]],
                    width + (if |current| > 0 then 1 else 0) + |words[i]|)
  {
    var w := words[i];
    WidthSnoc(current, w);
    assert words[..i + 1] == words[..i] + [w];
    assert Flatten(rows) + (current + [w]) == (Flatten(rows) + current) + [w];
  }

  /** The next word does not fit: the open row, if any, is closed and the
      word opens a new one. */
  lemma PackBreak(words: seq<string>, i: nat, rows: seq<seq<string>>, current: seq<string>, width: nat)
    requires PackInv(words, i, rows, current, width) && i < |words|
    requires width + (if |current| > 0 then 1 else 0) + |words[i]| > GridWidth
    ensures PackInv(words, i + 1, if |current| > 0 then rows + [current] else rows,
                    [words[i]], |words[i]|)
  {
    var w := words[i];
    WidthSnoc(current, w);
    assert words[..i + 1] == words[..i] + [w];
    if |current| > 0 {
      PackedSnoc(rows, current);
      FlattenSnoc(rows, current);
    }
  }

  /** Once every word is placed, closing the open row yields a greedy
      layout. */
  lemma PackClose(words: seq<string>, rows: seq<seq<string>>, current: seq<string>, width: nat)
    requires PackInv(words, |words|, rows, current, width)
    ensures Greedy(words, if |current| > 0 then rows + [current] else rows)
  {
    assert words[..|words|] == words;
    if |current| > 0 {
      PackedSnoc(rows, current);
      FlattenSnoc(rows, current);
    }
  }

  /** One turn of the display's packing loop: the next word goes on the
      open row when it fits there, otherwise the open row, if any, is closed
      and the word opens a new one. */
  method PlaceWord(words: seq<string>, i: nat, rows: seq<seq<string>>, current: seq<string>, width: nat)
    returns (rows': seq<seq<string>>, current': seq<string>, width': nat)
    requires PackInv(words, i, rows, current, width) && i < |words|
    ensures PackInv(words, i + 1, rows', current', width')
  {
    var w := words[i];
    var gap := if |current| > 0 then 1 else 0;
    if width + gap + |w| <= GridWidth {
      PackOnto(words, i, rows, current, width);
      rows', current', width' := rows, current + [w], width + gap + |w|;
    } else {
      PackBreak(words, i, rows, current, width);
      rows' := if |current| > 0 then rows + [current] else rows;
      current', width' := [w], |w|;
    }
  }

  /** The row layout computed by the display, word by word. */
  method PackRows(words: seq<string>) returns (rows: seq<seq<string>>)
    ensures Greedy(words, rows)
  {
    rows := [];
    var current: seq<string> := [];
    var width: nat := 0;
    var i: nat := 0;
    while i < |words|
      invariant PackInv(words, i, rows, current, width)
    {
      rows, current, width := PlaceWord(words, i, rows, current, width);
      i := i + 1;
    }
    PackClose(words, rows, current, width);
    if |current| > 0 {
      rows := rows + [current];
    }
  }

  /** Extending a row never makes it narrower. */
  lemma {:induction false} JoinGrows(a: seq<string>, b: seq<string>)
    requires |a| > 0
    ensures |Join(a)| <= |Join(a + b)|
  {
    if |b| > 0 {
      var b' := b[..|b| - 1];
      JoinGrows(a, b');
      assert a + b == (a + b') + [b[|b| - 1]];
      JoinSnoc(a + b', b[|b| - 1]);
    } else {
      assert a + b == a;
    }
  }

  /** Flattening takes the words of the first row, then those of the rest. */
  lemma FlattenCons(rows: seq<seq<string>>)
    requires |rows| > 0
    ensures Flatten(rows) == rows[0] + Flatten(rows[1..])
  {
  }

  /** The first row of a greedy layout is forced: it cannot be shorter than
      the first row of another greedy layout of the same words. */
  lemma FirstRowNotShorter(words: seq<string>, r1: seq<seq<string>>, r2: seq<seq<string>>)
    requires Greedy(words, r1) && Greedy(words, r2) && |r1| > 0 && |r2| > 0
    ensures |r1[0]| >= |r2[0]|
  {
    var a, b := r1[0], r2[0];
    FlattenCons(r1);
    FlattenCons(r2);
    if |a| < |b| {
      assert a == words[..|a|] && b == words[..|b|];
      assert |r1| > 1;
      FlattenCons(r1[1..]);
      var next := r1[1][0];
      assert next == words[|a|];
      var ext := a + [next];
      assert ext == b[..|a| + 1];
      assert b == ext + b[|a| + 1..];
      JoinGrows(ext, b[|a| + 1..]);
      assert false;
    }
  }

  /** Greedy packing is determined by the words: two greedy layouts of the
      same words are the same layout, so the loop's result is the only one. */
  lemma {:induction false} GreedyUnique(words: seq<string>, r1: seq<seq<string>>, r2: seq<seq<string>>)
    requires Greedy(words, r1) && Greedy(words, r2)
    ensures r1 == r2
    decreases |r1|
  {
    if |r1| == 0 || |r2| == 0 {
      if |r1| > 0 {
        FlattenCons(r1);
      }
      if |r2| > 0 {
        FlattenCons(r2);
      }
    } else {
      FirstRowNotShorter(words, r1, r2);
      FirstRowNotShorter(words, r2, r1);
      FlattenCons(r1);
      FlattenCons(r2);
      var n := |r1[0]|;
      assert r1[0] == words[..n] == r2[0];
      var rest := words[n..];
      assert Flatten(r1[1..]) == rest && Flatten(r2[1..]) == rest;
      assert Greedy(rest, r1[1..]) by {
        forall k | 0 <= k < |r1| - 2
          ensures !Fits(r1[1..][k] + [r1[1..][k + 1][0]])
        {
          assert r1[1..][k] == r1[k + 1];
        }
      }
      assert Greedy(rest, r2[1..]) by {
        forall k | 0 <= k < |r2| - 2
          ensures !Fits(r2[1..][k] + [r2[1..][k + 1][0]])
        {
          assert r2[1..][k] == r2[k + 1];
        }
      }
      GreedyUnique(rest, r1[1..], r2[1..]);
    }
  }

  /** Joining two non-empty word lists one after the other puts a single
      space between their joined texts. */
  lemma {:induction false} JoinAppend(a: seq<string>, b: seq<string>)
    requires |a| > 0 && |b| > 0
    ensures Join(a + b) == Join(a) + [Space] + Join(b)
    decreases |b|
  {
    var w := b[|b| - 1];
    var b' := b[..|b| - 1];
    assert b == b' + [w];
    if |b| == 1 {
      JoinSnoc(a, w);
    } else {
      JoinAppend(a, b');
      Seqs.Associative(a, b', [w]);
      JoinSnoc(a + b', w);
      JoinSnoc(b', w);
      calc {
        Join(a + b);
        Join((a + b') + [w]);
        Join(a + b') + [Space] + w;
        Join(a) + [Space] + Join(b') + [Space] + w;
        { Seqs.Associative(Join(a) + [Space], Join(b'), [Space]);
          Seqs.Associative(Join(a) + [Space], Join(b') + [Space], w); }
        Join(a) + [Space] + (Join(b') + [Space] + w);
        Join(a) + [Space] + Join(b);
      }
    }
  }

  /** The text each row shows: its words joined by single spaces. */
  function RowTexts(rows: seq<seq<string>>): seq<string>
  {
    seq(|rows|, k requires 0 <= k < |rows| => Join(rows[k]))
  }

  /** The flattened words of non-empty rows are never empty. */
  lemma FlattenNonEmpty(rows: seq<seq<string>>)
    requires |rows| > 0 && |rows[0]| > 0
    ensures |Flatten(rows)| > 0
  {
    FlattenCons(rows);
  }

  /** Joining the row texts with single spaces is joining all their words
      with single spaces. */
  lemma {:induction false} JoinRows(rows: seq<seq<string>>)
    requires |rows| > 0
    requires forall k :: 0 <= k < |rows| ==> |rows[k]| > 0
    ensures Join(RowTexts(rows)) == Join(Flatten(rows))
    decreases |rows|
  {
    FlattenCons(rows);
    var rest := rows[1..];
    if |rest| == 0 {
      assert Flatten(rows) == rows[0];
      assert RowTexts(rows) == [Join(rows[0])];
    } else {
      JoinRows(rest);
      FlattenNonEmpty(rest);
      JoinAppend(rows[0], Flatten(rest));
      assert RowTexts(rows) == [Join(rows[0])] + RowTexts(rest);
      JoinAppend([Join(rows[0])], RowTexts(rest));
    }
  }

  /** The rows of a greedy layout of the phrase's words, each shown as its
      words joined by single spaces and the rows separated by single spaces,
      spell the phrase. */
  lemma RowsSpellPhrase(phrase: string, rows: seq<seq<string>>)
    requires Greedy(Split(phrase), rows)
    ensures |rows| > 0
    ensures Join(RowTexts(rows)) == phrase
  {
    JoinRows(rows);
    JoinSplit(phrase);
  }

  /** Where row `k`'s text starts in the joined texts: after the earlier
      row texts and one space after each. */
  function Offset(texts: seq<string>, k: nat): nat
    requires k <= |texts|
  {
    if k == 0 then 0 else |Join(texts[..k])| + 1
  }

  /** Row `j`'s text sits at position `start` of the joined texts. */
  predicate Placed(texts: seq<string>, j: nat, start: nat)
    requires j < |texts|
  {
    && start + |texts[j]| <= |Join(texts)|
    && forall i :: 0 <= i < |texts[j]| ==> Join(texts)[start + i] == texts[j][i]
  }

  /** Row `k`'s text sits at its offset in the joined texts, and the texts up
      to row `k` end right after it. */
  lemma RowAt(texts: seq<string>, k: nat)
    requires k < |texts|
    ensures |Join(texts[..k + 1])| == Offset(texts, k) + |texts[k]|
    ensures Placed(texts, k, Offset(texts, k))
  {
    var upto := texts[..k + 1];
    if k == 0 {
      assert upto == [texts[0]];
    } else {
      assert upto == texts[..k] + [texts[k]];
      JoinSnoc(texts[..k], texts[k]);
    }
    if k + 1 < |texts| {
      assert texts == upto + texts[k + 1..];
      JoinAppend(upto, texts[k + 1..]);
    } else {
      assert upto == texts;
    }
  }

  /** The display's walk over the rows: a character counter that advances
      over each row's text and over the single space between two rows gives,
      for every row, the position its text has in the joined text. */
  method RowStarts(texts: seq<string>) returns (starts: seq<nat>)
    ensures |starts| == |texts|
    ensures forall k :: 0 <= k < |texts| ==> Placed(texts, k, starts[k])
  {
    starts := [];
    var index: nat := 0;
    var k := 0;
    while k < |texts|
      invariant 0 <= k <= |texts|
      invariant |starts| == k
      invariant k < |texts| ==> index == Offset(texts, k)
      invariant forall j :: 0 <= j < k ==> Placed(texts, j, starts[j])
    {
      RowAt(texts, k);
      starts := starts + [index];
      index := index + |texts[k]|;
      if k < |texts| - 1 {
        index := index + 1;
      }
      k := k + 1;
    }
  }

  /** Placed texts of rows that spell the phrase, read in phrase terms. */
  lemma CellsOfPhrase(phrase: string, rows: seq<seq<string>>, starts: seq<nat>)
    requires Join(RowTexts(rows)) == phrase
    requires |starts| == |rows|
    requires forall k :: 0 <= k < |rows| ==> Placed(RowTexts(rows), k, starts[k])
    ensures forall k, i :: 0 <= k < |rows| && 0 <= i < |Join(rows[k])| ==>
              starts[k] + i < |phrase| && phrase[starts[k] + i] == Join(rows[k])[i]
  {
    var texts := RowTexts(rows);
    forall k, i | 0 <= k < |rows| && 0 <= i < |Join(rows[k])|
      ensures starts[k] + i < |phrase| && phrase[starts[k] + i] == Join(rows[k])[i]
    {
      assert texts[k] == Join(rows[k]);
      assert Placed(texts, k, starts[k]);
    }
  }

  /** The board as drawn: the phrase's words packed into rows, and for each
      row the phrase position of its first cell. The cell for character `i`
      of row `k` stands for phrase position `starts[k] + i`, which holds
      exactly that character, so a cell is shown exactly when the position
      of its own character is revealed. */
  method DrawBoard(phrase: string) returns (rows: seq<seq<string>>, starts: seq<nat>)
    ensures Greedy(Split(phrase), rows)
    ensures |starts| == |rows|
    ensures forall k, i :: 0 <= k < |rows| && 0 <= i < |Join(rows[k])| ==>
              starts[k] + i < |phrase| && phrase[starts[k] + i] == Join(rows[k])[i]
  {
    rows := PackRows(Split(phrase));
    starts := RowStarts(RowTexts(rows));
    RowsSpellPhrase(phrase, rows);
    CellsOfPhrase(phrase, rows, starts);
  }
}
