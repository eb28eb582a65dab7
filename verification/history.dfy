/** The log of finished rounds: newest first, never longer than twenty
    entries. Timestamps are the game's locale-formatted clock readings; here
    they are opaque strings supplied by the caller. */
module History {
  import Seqs

  datatype Entry = Entry(phrase: string, won: bool, errors: nat, timestamp: string)

  /** How many entries the log keeps. */
  const Capacity: nat := 20

  function Min(a: nat, b: nat): nat
  {
    if a <= b then a else b
  }

  /** Recording a round: the entry goes in front and the oldest entries
      beyond the capacity fall off. */
  function AddToHistory(h: seq<Entry>, e: Entry): (h': seq<Entry>)
    ensures |h'| == Min(|h| + 1, Capacity)
    ensures h'[0] == e
    ensures h'[1..] == h[..Min(|h|, Capacity - 1)]
  {
    var h' := [e] + h;
    if |h'| > Capacity then h'[..Capacity] else h'
  }

  /** Emptying the log. */
  function ClearHistory(): (h': seq<Entry>)
    ensures |h'| == 0
  {
    []
  }

  /** The entries in the opposite order. */
  function Reverse(es: seq<Entry>): (r: seq<Entry>)
    ensures |r| == |es|
  {
    if |es| == 0 then [] else Reverse(es[1..]) + [es[0]]
  }

  /** The log after recording the rounds `es`, oldest first. */
  function AddAll(h: seq<Entry>, es: seq<Entry>): seq<Entry>
    decreases es
  {
    if |es| == 0 then h else AddAll(AddToHistory(h, es[0]), es[1..])
  }

  /** Recording a round into a log within capacity puts the entry in front
      and cuts at the capacity. */
  lemma AddToHistoryCut(h: seq<Entry>, e: Entry)
    requires |h| <= Capacity
    ensures AddToHistory(h, e) == ([e] + h)[..Min(|h| + 1, Capacity)]
  {
  }

  /** Cutting the tail before taking a prefix that does not reach the cut
      changes nothing. */
  lemma PrefixOfCut(a: seq<Entry>, x: seq<Entry>, k: nat, n: nat)
    requires k <= |x| && n <= |a| + k
    ensures (a + x[..k])[..n] == (a + x)[..n]
  {
    assert forall i :: 0 <= i < n ==> (a + x[..k])[i] == (a + x)[i];
  }

  /** One more round in front of a log within capacity: the newest-first
      prefix of the longer history. */
  lemma KeepsNewestStep(rest: seq<Entry>, e: Entry, h: seq<Entry>, h1: seq<Entry>, tail: seq<Entry>)
    requires |h| <= Capacity
    requires h1 == ([e] + h)[..Min(|h| + 1, Capacity)]
    requires tail == (rest + h1)[..Min(|rest| + |h1|, Capacity)]
    ensures |tail| == Min(|rest| + 1 + |h|, Capacity)
    ensures tail == (rest + ([e] + h))[..Min(|rest| + 1 + |h|, Capacity)]
  {
    PrefixOfCut(rest, [e] + h, Min(|h| + 1, Capacity), Min(|rest| + 1 + |h|, Capacity));
  }

  /** Reversed rounds in front of a log: the first round goes next to the
      log. */
  lemma ReverseFront(es: seq<Entry>, h: seq<Entry>)
    requires |es| > 0
    ensures Reverse(es) + h == Reverse(es[1..]) + ([es[0]] + h)
  {
    Seqs.Associative(Reverse(es[1..]), [es[0]], h);
  }

  /** The log is the twenty most recent rounds, newest first, followed by
      what it held before while room is left: recording one round at a time
      is the same as putting all of them, reversed, in front and cutting at
      the capacity. */
  lemma {:induction false} AddAllKeepsNewest(h: seq<Entry>, es: seq<Entry>)
    requires |h| <= Capacity
    decreases es
    ensures |AddAll(h, es)| == Min(|es| + |h|, Capacity)
    ensures AddAll(h, es) == (Reverse(es) + h)[..Min(|es| + |h|, Capacity)]
  {
    if |es| > 0 {
      var h1 := AddToHistory(h, es[0]);
      var rest := Reverse(es[1..]);
      AddToHistoryCut(h, es[0]);
      AddAllKeepsNewest(h1, es[1..]);
      KeepsNewestStep(rest, es[0], h, h1, AddAll(h1, es[1..]));
      ReverseFront(es, h);
    }
  }
}
